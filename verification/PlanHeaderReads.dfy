/** What the header parser reads in any text at all: the form of each line, and what every field of the result says. */
module PlanHeaderReads {
  import opened Wrappers
  import opened Strings
  import opened PlanGrammar
  import opened PlanHeader

  // ---------------------------------------------------------------- white space

  /** What is stripped on the left is white space. */
  lemma {:induction false} StripLeftIs(s: string)
    ensures var k := |s| - |StripLeft(s)|; AllSpace(s[..k]) && s[k..] == StripLeft(s)
  {
    if |s| > 0 && IsSpace(s[0]) {
      StripLeftIs(s[1..]);
      var k := |s| - |StripLeft(s)|;
      assert s[1..][..k - 1] == s[..k][1..] && s[1..][k - 1..] == s[k..];
    }
  }

  lemma {:induction false} StripLeftOf(ws: string, r: string)
    requires AllSpace(ws) && (r == "" || !IsSpace(r[0]))
    ensures StripLeft(ws + r) == r
  {
    if |ws| > 0 {
      assert (ws + r)[1..] == ws[1..] + r;
      StripLeftOf(ws[1..], r);
    } else {
      assert ws + r == r;
    }
  }

  lemma {:induction false} StripRightIs(s: string)
    ensures AllSpace(s[|StripRight(s)|..])
  {
    if |s| > 0 && IsSpace(s[|s| - 1]) {
      var front := s[..|s| - 1];
      StripRightIs(front);
      forall i | |StripRight(s)| <= i < |s|
        ensures IsSpace(s[i])
      {
        if i < |s| - 1 {
          assert front[|StripRight(s)|..][i - |StripRight(s)|] == s[i];
        }
      }
    }
  }

  lemma {:induction false} StripRightOf(r: string, ws: string)
    requires AllSpace(ws) && (r == "" || !IsSpace(r[|r| - 1]))
    ensures StripRight(r + ws) == r
  {
    if |ws| > 0 {
      assert (r + ws)[..|r + ws| - 1] == r + ws[..|ws| - 1];
      StripRightOf(r, ws[..|ws| - 1]);
    } else {
      assert r + ws == r;
    }
  }

  /** The word stands alone between white space. */
  ghost predicate Surrounded(s: string, word: string) {
    exists a: string, b: string :: AllSpace(a) && AllSpace(b) && s == a + word + b
  }

  lemma StripIs(s: string, word: string)
    requires |word| > 0 && !IsSpace(word[0]) && !IsSpace(word[|word| - 1])
    ensures Strip(s) == word <==> Surrounded(s, word)
  {
    hide StripLeft, StripRight, AllSpace;
    if Strip(s) == word {
      StripLeftIs(s);
      StripRightIs(StripLeft(s));
      var left := StripLeft(s);
      var a, b := s[..|s| - |left|], left[|word|..];
      assert left == word + b && s == a + word + b;
    }
    if a: string, b: string :| AllSpace(a) && AllSpace(b) && s == a + word + b {
      StripBetween(a, word, b);
    }
  }

  lemma StripBetween(a: string, word: string, b: string)
    requires |word| > 0 && !IsSpace(word[0]) && !IsSpace(word[|word| - 1]) && AllSpace(a) && AllSpace(b)
    ensures Strip(a + word + b) == word
  {
    hide StripLeft, StripRight, AllSpace;
    assert a + word + b == a + (word + b) && (word + b)[0] == word[0];
    StripLeftOf(a, word + b);
    StripRightOf(word, b);
  }

  lemma BlankIs(s: string)
    ensures Strip(s) == "" <==> AllSpace(s)
  {
    StripLeftIs(s);
    var left := StripLeft(s);
    StripRightIs(left);
    assert |left| > 0 ==> s[|s| - |left|] == left[0];
    if Strip(s) == "" {
      assert left[0..] == left;
    }
  }

  // ---------------------------------------------------------------- lines

  /** The line is the key, white space or none, and the value. */
  ghost predicate Reads(line: string, key: string, value: string) {
    exists ws: string :: AllSpace(ws) && line == key + ws + value
  }

  lemma AfterIs(key: string, line: string, value: string)
    requires |value| > 0 && !IsSpace(value[0])
    ensures After(key, line) == Some(value) <==> Reads(line, key, value)
  {
    if After(key, line) == Some(value) {
      StripLeftIs(line[|key|..]);
      var ws := line[|key|..][..|line| - |key| - |value|];
      assert line == key + ws + value;
    }
    if ws: string :| AllSpace(ws) && line == key + ws + value {
      assert key <= line && line[|key|..] == ws + value;
      StripLeftOf(ws, value);
    }
  }

  /** What a line of the block says, if it has one of the four forms or is blank. */
  ghost predicate Says(line: string, what: Line) {
    match what
    case VersionLine(v) => IsVersionNumber(v) && Reads(line, "Version:", "v" + Decimal(v))
    case IdentityLine(i) => IsIdentity(i) && Reads(line, "Identity:", i)
    case ParentLine(p) =>
      if p.None? then Reads(line, "Parent:", "none")
      else IsVersionNumber(p.value) && Reads(line, "Parent:", "v" + Decimal(p.value))
    case SlugLine(s) => IsSlug(s) && Reads(line, "Slug:", s)
    case BlankLine => AllSpace(line)
    case StrangeLine => false
  }

  predicate IsVersionNumber(v: nat) {
    1 <= v < 10_000_000_000
  }

  lemma VersionTextIs(s: string, v: nat)
    ensures VersionText(s) == Some(v) <==> IsVersionNumber(v) && s == "v" + Decimal(v)
  {
    if |s| > 0 && s[0] == 'v' && IsVersion(s[1..]) {
      VersionReads(s[1..]);
      assert s == "v" + s[1..];
    }
    if IsVersionNumber(v) && s == "v" + Decimal(v) {
      VersionPrints(v);
      assert s[1..] == Decimal(v);
    }
  }

  /** A line with a version after its key says which, and no other line does. */
  lemma VersionAfter(key: string, line: string, v: nat)
    ensures After(key, line).Some? && VersionText(After(key, line).value) == Some(v)
       <==> IsVersionNumber(v) && Reads(line, key, "v" + Decimal(v))
  {
    hide Decimal, VersionText, After;
    assert ("v" + Decimal(v))[0] == 'v';
    AfterIs(key, line, "v" + Decimal(v));
    if After(key, line).Some? {
      VersionTextIs(After(key, line).value, v);
    }
  }

  lemma KeyComesFirst(key: string, line: string)
    requires |key| > 0 && !IsSpace(key[0])
    ensures After(key, line).Some? ==> |line| > 0 && line[0] == key[0] && !AllSpace(line)
  {
  }

  /** The four patterns, tried in turn, find exactly what the line says; a line that says nothing is a strange one. */
  lemma ClassifyIff(line: string, what: Line)
    requires !what.StrangeLine?
    ensures Classify(line) == what <==> Says(line, what)
  {
    hide Strip, After, VersionText, IsIdentity, IsSlug, Reads, Decimal, AllSpace;
    KeyFacts();
    KeyComesFirst(VERSION_KEY, line);
    KeyComesFirst(IDENTITY_KEY, line);
    KeyComesFirst(PARENT_KEY, line);
    KeyComesFirst(SLUG_KEY, line);
    BlankIs(line);
    match what
    case VersionLine(v) => VersionAfter(VERSION_KEY, line, v);
    case IdentityLine(i) =>
      if IsIdentity(i) { NameAfter(IDENTITY_KEY, line, i); }
    case ParentLine(p) =>
      if p.Some? {
        VersionAfter(PARENT_KEY, line, p.value);
      } else {
        AfterIs(PARENT_KEY, line, "none");
        NoneIsNoVersion();
      }
    case SlugLine(s) =>
      if IsSlug(s) { NameAfter(SLUG_KEY, line, s); }
    case BlankLine =>
  }

  lemma NoneIsNoVersion()
    ensures VersionText("none").None?
  {
    assert "none"[0] == 'n';
  }

  lemma NameAfter(key: string, line: string, name: string)
    requires IsIdentity(name) || IsSlug(name)
    ensures After(key, line) == Some(name) <==> Reads(line, key, name)
  {
    if IsIdentity(name) { IdentityChars(name); } else { SlugChars(name); }
    AfterIs(key, line, name);
  }

  /** A line opens a block: "<!--", white space, "boxfox-plan", white space. */
  lemma OpeningIff(line: string)
    ensures IsOpening(line) <==> "<!--" <= line && Surrounded(line[4..], "boxfox-plan")
  {
    if "<!--" <= line {
      StripIs(line[4..], "boxfox-plan");
    }
  }

  /** A text is cut at its line breaks, a carriage return with a line feed behind it being one of them. */
  lemma LinesAreRead(line: string, rest: string, c: char)
    requires OneLine(line)
    ensures line != "" ==> SplitLines(line) == [line]
    ensures SplitLines(line + "\r\n" + rest) == [line] + SplitLines(rest)
    ensures IsLineBreak(c) && !(c == '\r' && "\n" <= rest) ==> SplitLines(line + [c] + rest) == [line] + SplitLines(rest)
  {
    hide SplitLines, OneLine;
    WholeLine(line);
    CutLine(line, "\r\n" + rest);
    assert line + ("\r\n" + rest) == line + "\r\n" + rest && ("\r\n" + rest)[2..] == rest;
    if IsLineBreak(c) && !(c == '\r' && "\n" <= rest) {
      CutLine(line, [c] + rest);
      assert line + ([c] + rest) == line + [c] + rest && ([c] + rest)[1..] == rest;
    }
  }

  lemma WholeLine(line: string)
    requires OneLine(line)
    ensures line != "" ==> SplitLines(line) == [line]
  {
    LengthOfLine(line, "");
    assert line + "" == line && line[..|line|] == line;
  }

  lemma CutLine(line: string, tail: string)
    requires OneLine(line) && |tail| > 0 && IsLineBreak(tail[0])
    ensures SplitLines(line + tail)
         == [line] + SplitLines(tail[if tail[0] == '\r' && |tail| > 1 && tail[1] == '\n' then 2 else 1..])
  {
    LengthOfLine(line, tail);
    var s := line + tail;
    assert s[..|line|] == line && s[|line|..] == tail && s[|line| + 1..] == tail[1..];
    assert |tail| > 1 ==> s[|line| + 1] == tail[1] && s[|line| + 2..] == tail[2..];
  }

  lemma {:induction false} LengthOfLine(line: string, rest: string)
    requires OneLine(line) && (rest == "" || IsLineBreak(rest[0]))
    ensures LineLength(line + rest) == |line|
  {
    if |line| > 0 {
      LengthOfLine(line[1..], rest);
      assert (line + rest)[1..] == line[1..] + rest;
    } else {
      assert line + rest == rest;
    }
  }

  // ---------------------------------------------------------------- the result

  /** The first line of its kind says this. */
  ghost predicate FirstSays(body: seq<string>, what: Line) {
    exists i :: 0 <= i < |body| && IsFirst(body, i, what)
  }

  ghost predicate IsFirst(body: seq<string>, i: nat, what: Line)
    requires i < |body|
  {
    Says(body[i], what) && forall j, other :: 0 <= j < i && KindOf(other) == KindOf(what) ==> !Says(body[j], other)
  }

  ghost predicate SomeSays(body: seq<string>, kind: Kind) {
    exists i, what :: 0 <= i < |body| && KindOf(what) == kind && Says(body[i], what)
  }

  /** The fields say what the first line of each kind says. */
  ghost predicate FieldsAreFirst(f: Fields, body: seq<string>) {
    && (if f.version.Some? then FirstSays(body, VersionLine(f.version.value)) else !SomeSays(body, AVersion))
    && (if f.identity.Some? then FirstSays(body, IdentityLine(f.identity.value)) else !SomeSays(body, AIdentity))
    && (if f.parent.Some? then FirstSays(body, ParentLine(f.parent.value)) else !SomeSays(body, AParent))
    && (if f.slug.Some? then FirstSays(body, SlugLine(f.slug.value)) else !SomeSays(body, ASlug))
  }

  lemma FirstStays(body: seq<string>, what: Line)
    requires |body| > 0 && FirstSays(body[..|body| - 1], what)
    ensures FirstSays(body, what)
  {
    hide Says;
    var front := body[..|body| - 1];
    var i :| 0 <= i < |front| && IsFirst(front, i, what);
    assert IsFirst(body, i, what);
  }

  lemma LineSays(body: seq<string>, kind: Kind)
    requires |body| > 0
    ensures var line := Classify(body[|body| - 1]);
      && (SomeSays(body, kind) <==> SomeSays(body[..|body| - 1], kind) || (KindOf(line) == kind && kind != AStrange))
      && (KindOf(line) == kind && kind != AStrange && !SomeSays(body[..|body| - 1], kind) ==> FirstSays(body, line))
  {
    hide Says, Classify;
    var front, last := body[..|body| - 1], |body| - 1;
    var line := Classify(body[last]);
    forall what: Line | !what.StrangeLine?
      ensures line == what <==> Says(body[last], what)
    {
      ClassifyIff(body[last], what);
    }
    NothingStrange(body[last]);
    if KindOf(line) == kind && kind != AStrange {
      assert Says(body[last], line);
      if !SomeSays(front, kind) {
        forall j, other | 0 <= j < last && KindOf(other) == kind
          ensures !Says(body[j], other)
        {
          assert front[j] == body[j];
        }
        assert IsFirst(body, last, line);
      }
    }
    if SomeSays(front, kind) {
      var i, what :| 0 <= i < |front| && KindOf(what) == kind && Says(front[i], what);
      assert Says(body[i], what);
    }
    if SomeSays(body, kind) {
      var i, what :| 0 <= i < |body| && KindOf(what) == kind && Says(body[i], what);
      if i < last {
        assert Says(front[i], what);
      }
    }
  }

  lemma NothingStrange(line: string)
    ensures !Says(line, StrangeLine)
  {
  }

  lemma {:induction false} TakesFirst(body: seq<string>)
    ensures FieldsAreFirst(TakeAll(body), body)
  {
    hide Says, Classify, FirstSays, SomeSays;
    if |body| == 0 {
      NoneSays();
    } else {
      TakesFirst(body[..|body| - 1]);
      LineSays(body, AVersion);
      LineSays(body, AIdentity);
      LineSays(body, AParent);
      LineSays(body, ASlug);
      var f := TakeAll(body[..|body| - 1]);
      if f.version.Some? { FirstStays(body, VersionLine(f.version.value)); }
      if f.identity.Some? { FirstStays(body, IdentityLine(f.identity.value)); }
      if f.parent.Some? { FirstStays(body, ParentLine(f.parent.value)); }
      if f.slug.Some? { FirstStays(body, SlugLine(f.slug.value)); }
    }
  }

  lemma NoneSays()
    ensures forall kind :: !SomeSays([], kind)
  {
  }

  /** Where the block opens, if it does: at the first opening line, which must be among the first twelve. */
  ghost predicate OpensAt(lines: seq<string>, start: nat) {
    start < |lines| && start < 12 && IsOpening(lines[start]) && forall i :: 0 <= i < start ==> !IsOpening(lines[i])
  }

  /** Where it ends: at the first closing line of the twelve that follow, or else behind them. */
  ghost predicate EndsAt(lines: seq<string>, start: nat, end: nat, closed: bool) {
    && start < end <= |lines| && end <= start + 13 && (forall i :: start < i < end ==> !IsClosing(lines[i]))
    && (if closed then end < |lines| && end < start + 13 && IsClosing(lines[end]) else end == Min(|lines|, start + 13))
  }

  /** A header is absent exactly when no block opens. */
  lemma AbsentIff(lines: seq<string>)
    ensures ParseLines(lines).status.Absent? <==> forall start: nat :: !OpensAt(lines, start)
    ensures ParseLines(lines).status.Absent? ==> ParseLines(lines) == Header(None, "", None, None, Absent, 0)
  {
    hide IsOpening, IsClosing, TakeAll, FindClosing, FindOpening;
    var r := FindOpening(lines, Min(|lines|, 12));
    assert r.Some? ==> OpensAt(lines, r.value);
  }

  /** Of a block the header says what the first line of each kind says, closed or not; it is ok exactly when the block is
      closed and its lines are as they should be. */
  lemma HeaderIs(lines: seq<string>, start: nat, end: nat, closed: bool)
    requires OpensAt(lines, start) && EndsAt(lines, start, end, closed)
    ensures var (h, body) := (ParseLines(lines), lines[start + 1..end]);
      && h.status == (if closed && IsBlockBody(body) then Ok else Invalid)
      && h.bodyOffset == (if closed then end + 1 else start + 1)
      && (if h.version.Some? then FirstSays(body, VersionLine(h.version.value)) else !SomeSays(body, AVersion))
      && (if h.identity != "" then FirstSays(body, IdentityLine(h.identity)) else !SomeSays(body, AIdentity))
      && (if h.slug.Some? then FirstSays(body, SlugLine(h.slug.value)) else !SomeSays(body, ASlug))
      && (FirstSays(body, ParentLine(h.parent)) || (h.parent.None? && !SomeSays(body, AParent)))
  {
    hide IsOpening, IsClosing, TakeAll, FirstSays, SomeSays, Count, FindOpening, FindClosing;
    var body := lines[start + 1..end];
    assert FindOpening(lines, Min(|lines|, 12)) == Some(start);
    assert FindClosing(lines, start + 1, Min(|lines|, start + 13)) == if closed then Some(end) else None;
    TakesFirst(body);
    TakeAllCounts(body);
    NoEmptyIdentity(body);
  }

  lemma NoEmptyIdentity(body: seq<string>)
    ensures TakeAll(body).identity != Some("")
  {
    hide TakeAll;
    TakesFirst(body);
    if TakeAll(body).identity.Some? {
      IdentityChars(TakeAll(body).identity.value);
    }
  }
}
