/** The names of the plan store (slugs, identities, versions) and the lines of its header block. */
module PlanGrammar {
  import opened Strings

  // ---------------------------------------------------------------- names

  predicate IsWordChar(c: char) {
    'a' <= c <= 'z' || IsDigit(c)
  }

  predicate IsWord(s: string) {
    |s| > 0 && forall i :: 0 <= i < |s| ==> IsWordChar(s[i])
  }

  /** `[a-z0-9]+(?:-[a-z0-9]+)*` */
  predicate IsSlug(s: string) {
    forall part :: part in Split(s, '-') ==> IsWord(part)
  }

  /** `(?:slug/)*slug` */
  predicate IsIdentity(s: string) {
    forall part :: part in Split(s, '/') ==> IsSlug(part)
  }

  const VERSION_LIMIT := 10_000_000_000

  /** `[1-9][0-9]{0,9}` */
  predicate IsVersion(s: string) {
    AllDigits(s) && s[0] != '0' && |s| <= 10
  }

  lemma {:induction false} DecimalLength(n: nat, k: nat)
    requires k >= 1 && n < Pow10(k)
    ensures |Decimal(n)| <= k
    decreases k
  {
    if n >= 10 {
      DecimalLength(n / 10, k - 1);
    }
  }

  function Pow10(k: nat): nat {
    if k == 0 then 1 else 10 * Pow10(k - 1)
  }

  lemma {:induction false} NumberBelow(s: string)
    requires AllDigits(s)
    ensures Number(s) < Pow10(|s|)
  {
    if |s| > 1 {
      NumberBelow(s[..|s| - 1]);
    }
  }

  lemma {:induction false} Pow10Grows(j: nat, k: nat)
    requires j <= k
    ensures Pow10(j) <= Pow10(k)
    decreases k
  {
    if j < k {
      Pow10Grows(j, k - 1);
    }
  }

  lemma TenDigits()
    ensures Pow10(10) == VERSION_LIMIT
  {
    assert Pow10(5) == 10 * 10 * 10 * Pow10(2);
    assert Pow10(10) == 10 * 10 * 10 * 10 * 10 * Pow10(5) by {
      assert Pow10(8) == 10 * 10 * 10 * Pow10(5);
    }
  }

  /** The numerals of the grammar are the printed positive numbers below ten to the tenth. */
  lemma VersionPrints(v: nat)
    requires 1 <= v < VERSION_LIMIT
    ensures IsVersion(Decimal(v)) && Number(Decimal(v)) == v
  {
    TenDigits();
    DecimalLength(v, 10);
    NumberOfDecimal(v);
  }

  lemma VersionReads(s: string)
    requires IsVersion(s)
    ensures 1 <= Number(s) < VERSION_LIMIT && Decimal(Number(s)) == s
  {
    DecimalOfNumber(s);
    NumberBelow(s);
    Pow10Grows(|s|, 10);
    TenDigits();
  }

  lemma {:induction false} SplitChars(s: string, sep: char, i: nat)
    requires i < |s| && s[i] != sep
    ensures exists part :: part in Split(s, sep) && s[i] in part
  {
    var rest := Split(s[1..], sep);
    if i == 0 {
      assert Split(s, sep)[0] == [s[0]] + rest[0];
      assert s[0] in Split(s, sep)[0];
    } else {
      SplitChars(s[1..], sep, i - 1);
      var part :| part in rest && s[i] in part;
      if s[0] == sep {
        assert part in Split(s, sep);
      } else if part == rest[0] {
        assert Split(s, sep)[0] == [s[0]] + part;
        assert s[i] in Split(s, sep)[0];
      } else {
        assert part in rest[1..];
        assert part in Split(s, sep);
      }
    }
  }

  lemma EmptyIsNoSlug()
    ensures !IsSlug("")
  {
    assert "" in Split("", '-');
  }

  lemma SlugChars(s: string)
    requires IsSlug(s)
    ensures |s| > 0 && forall i :: 0 <= i < |s| ==> IsWordChar(s[i]) || s[i] == '-'
  {
    EmptyIsNoSlug();
    forall i | 0 <= i < |s|
      ensures IsWordChar(s[i]) || s[i] == '-'
    {
      if s[i] != '-' {
        SplitChars(s, '-', i);
        var part :| part in Split(s, '-') && s[i] in part;
        assert IsWord(part);
      }
    }
  }

  lemma IdentityChars(s: string)
    requires IsIdentity(s)
    ensures |s| > 0 && forall i :: 0 <= i < |s| ==> IsWordChar(s[i]) || s[i] == '-' || s[i] == '/'
  {
    if |s| == 0 {
      assert "" in Split(s, '/');
      SlugChars("");
    }
    forall i | 0 <= i < |s|
      ensures IsWordChar(s[i]) || s[i] == '-' || s[i] == '/'
    {
      if s[i] != '/' {
        SplitChars(s, '/', i);
        var part :| part in Split(s, '/') && s[i] in part;
        SlugChars(part);
      }
    }
  }

  // ---------------------------------------------------------------- lines

  /** The characters `str.splitlines` breaks at. */
  predicate IsLineBreak(c: char) {
    '\n' <= c <= '\r' || '\U{1C}' <= c <= '\U{1E}' || c == '\U{85}' || c == '\U{2028}' || c == '\U{2029}'
  }

  predicate OneLine(s: string) {
    forall i :: 0 <= i < |s| ==> !IsLineBreak(s[i])
  }

  /** The length of the first line. */
  function LineLength(s: string): (k: nat)
    ensures k <= |s| && OneLine(s[..k]) && (k < |s| ==> IsLineBreak(s[k]))
  {
    if |s| == 0 || IsLineBreak(s[0]) then 0 else 1 + LineLength(s[1..])
  }

  /** `str.splitlines()` */
  function SplitLines(s: string): (lines: seq<string>)
    ensures forall line :: line in lines ==> OneLine(line)
  {
    if |s| == 0 then [] else
    var k := LineLength(s);
    if k == |s| then [s]
    else if s[k] == '\r' && k + 1 < |s| && s[k + 1] == '\n' then [s[..k]] + SplitLines(s[k + 2..])
    else [s[..k]] + SplitLines(s[k + 1..])
  }

  lemma {:induction false} LineLengthAt(line: string, rest: string)
    requires OneLine(line)
    ensures LineLength(line + "\n" + rest) == |line|
  {
    var s := line + "\n" + rest;
    if |line| > 0 {
      LineLengthAt(line[1..], rest);
      assert s[1..] == line[1..] + "\n" + rest;
    }
  }

  lemma SplitLinesCons(line: string, rest: string)
    requires OneLine(line)
    ensures SplitLines(line + "\n" + rest) == [line] + SplitLines(rest)
  {
    var s := line + "\n" + rest;
    LineLengthAt(line, rest);
    assert s[..|line|] == line && s[|line|] == '\n' && s[|line| + 1..] == rest;
  }

  /** Every line closed by a newline. */
  function Unlines(lines: seq<string>): string {
    if |lines| == 0 then "" else lines[0] + "\n" + Unlines(lines[1..])
  }

  lemma {:induction false} SplitUnlines(lines: seq<string>, rest: string)
    requires forall i :: 0 <= i < |lines| ==> OneLine(lines[i])
    ensures SplitLines(Unlines(lines) + rest) == lines + SplitLines(rest)
  {
    hide OneLine, SplitLines;
    if |lines| == 0 {
      assert Unlines(lines) + rest == rest;
    } else {
      var tail := Unlines(lines[1..]) + rest;
      assert Unlines(lines) + rest == lines[0] + "\n" + tail;
      SplitLinesCons(lines[0], tail);
      SplitUnlines(lines[1..], rest);
    }
  }
}
