/** Plan file names `vN-slug.md`: printing, parsing, and why a name says one thing only. */
module PlanNames {
  import opened Wrappers
  import opened Strings
  import opened PlanGrammar

  const SUFFIX := ".md"

  /** `f"v{version}-{slug}.md"` */
  function PlanName(version: nat, slug: string): string {
    "v" + Decimal(version) + "-" + slug + SUFFIX
  }

  /** The length of the leading run of digits. */
  function DigitRun(s: string): (k: nat)
    ensures k <= |s| && (forall i :: 0 <= i < k ==> IsDigit(s[i])) && (k < |s| ==> !IsDigit(s[k]))
  {
    if |s| > 0 && IsDigit(s[0]) then 1 + DigitRun(s[1..]) else 0
  }

  datatype Parsed = Parsed(version: nat, slug: string)

  /** `^v([1-9][0-9]{0,9})-(slug)\.md$` */
  function ParseName(name: string): Option<Parsed> {
    if |name| < 5 || name[0] != 'v' || name[|name| - 3..] != SUFFIX then None else
    var middle := name[1..|name| - 3];
    var k := DigitRun(middle);
    if k < |middle| && middle[k] == '-' && IsVersion(middle[..k]) && IsSlug(middle[k + 1..])
    then Some(Parsed(Number(middle[..k]), middle[k + 1..])) else None
  }

  lemma DigitRunOf(digits: string, rest: string)
    requires AllDigits(digits) && |rest| > 0 && !IsDigit(rest[0])
    ensures DigitRun(digits + rest) == |digits|
  {
    var s := digits + rest;
    assert s[|digits|] == rest[0];
    assert forall i :: 0 <= i < |digits| ==> s[i] == digits[i];
  }

  /** The parts of a plan name, whatever the slug. */
  lemma NameParts(version: nat, slug: string)
    ensures var name := PlanName(version, slug);
      && |name| >= 5 && name[0] == 'v' && name[|name| - 3..] == SUFFIX
      && name[1..|name| - 3] == Decimal(version) + ("-" + slug)
      && DigitRun(name[1..|name| - 3]) == |Decimal(version)|
  {
    var name := PlanName(version, slug);
    assert name == "v" + (Decimal(version) + ("-" + slug)) + SUFFIX;
    assert name[1..|name| - 3] == Decimal(version) + ("-" + slug);
    DigitRunOf(Decimal(version), "-" + slug);
  }

  lemma PlanNameIsInjective(v: nat, s: string, w: nat, t: string)
    requires PlanName(v, s) == PlanName(w, t)
    ensures v == w && s == t
  {
    hide PlanName;
    NameParts(v, s);
    NameParts(w, t);
    var middle := PlanName(v, s)[1..|PlanName(v, s)| - 3];
    assert middle[..|Decimal(v)|] == Decimal(v) && middle[..|Decimal(w)|] == Decimal(w);
    assert middle[|Decimal(v)| + 1..] == s && middle[|Decimal(w)| + 1..] == t;
    DecimalIsInjective(v, w);
  }

  lemma ParseOfPlanName(version: nat, slug: string)
    requires 1 <= version < VERSION_LIMIT && IsSlug(slug)
    ensures ParseName(PlanName(version, slug)) == Some(Parsed(version, slug))
  {
    hide PlanName, IsVersion, IsSlug;
    NameParts(version, slug);
    VersionPrints(version);
    var middle := Decimal(version) + ("-" + slug);
    assert middle[..|Decimal(version)|] == Decimal(version);
    assert middle[|Decimal(version)| + 1..] == slug;
  }

  lemma PlanNameOfParse(name: string)
    requires ParseName(name).Some?
    ensures var p := ParseName(name).value;
      1 <= p.version < VERSION_LIMIT && IsSlug(p.slug) && name == PlanName(p.version, p.slug)
  {
    hide IsVersion, IsSlug;
    var p := ParseName(name).value;
    var middle := name[1..|name| - 3];
    var k := DigitRun(middle);
    VersionReads(middle[..k]);
    assert middle == middle[..k] + "-" + middle[k + 1..];
    assert name == "v" + middle + SUFFIX;
  }
}
