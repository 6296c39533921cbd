/** The semantic version strings of the OCNE API. */
module SemVer {
  import opened Options
  import opened Text
  import opened Decimals

  datatype SemVersion = SemVersion(major: nat, minor: nat, patch: nat, prerelease: string, build: string)

  const MAX_INT64 := 0x7FFF_FFFF_FFFF_FFFF

  predicate IdChar(c: char)
  {
    Digit(c) || 'a' <= c <= 'z' || 'A' <= c <= 'Z' || c == '-'
  }

  predicate BuildPart(s: string)
  {
    s != [] && forall i | 0 <= i < |s| :: IdChar(s[i])
  }

  /** A number without leading zeros, or an identifier with a character that is not a digit. */
  predicate PreReleasePart(s: string)
  {
    BuildPart(s) && (Digits(s) ==> Canonical(s))
  }

  predicate PreReleaseText(s: string)
  {
    forall p | p in Split(s, '.') :: PreReleasePart(p)
  }

  predicate BuildText(s: string)
  {
    forall p | p in Split(s, '.') :: BuildPart(p)
  }

  predicate Number(s: string)
  {
    Canonical(s) && Value(s) <= MAX_INT64
  }

  /** What the pattern matches after its leading v: the five groups, the last two empty when absent. The pieces are
      separated where the pattern has to: a plus sign fits no earlier group, and no number has a hyphen or a dot. */
  function Groups(s: string): (r: Option<seq<string>>)
    ensures r.Some? ==> |r.value| == 5 && forall i | 0 <= i < 3 :: Canonical(r.value[i])
  {
    var (rest, build) := Cut(s, '+');
    var (numbers, pre) := Cut(rest, '-');
    var n := Split(numbers, '.');
    if |n| == 3 && (forall i | 0 <= i < 3 :: Canonical(n[i])) && (pre.Some? ==> PreReleaseText(pre.value))
       && (build.Some? ==> BuildText(build.value))
    then Some(n + [if pre.Some? then pre.value else "", if build.Some? then build.value else ""])
    else None
  }

  function Unprefixed(version: string): Option<string>
  {
    if version == [] then None
    else if version[0] == 'v' || version[0] == 'V' then Some(version[1..])
    else if Digit(version[0]) then Some(version)
    else None
  }

  function NewSemVersion(version: string): Option<SemVersion>
  {
    var s := Unprefixed(version);
    if s.None? then None
    else
      var g := Groups(s.value);
      if g.Some? && Number(g.value[0]) && Number(g.value[1]) && Number(g.value[2]) then
        Some(SemVersion(Value(g.value[0]), Value(g.value[1]), Value(g.value[2]), g.value[3], g.value[4]))
      else None
  }

  function ToString(v: SemVersion): string
  {
    Print(v.major) + "." + Print(v.minor) + "." + Print(v.patch)
    + (if v.prerelease != "" then "-" + v.prerelease else "") + (if v.build != "" then "+" + v.build else "")
  }

  predicate Valid(v: SemVersion)
  {
    && v.major <= MAX_INT64 && v.minor <= MAX_INT64 && v.patch <= MAX_INT64
    && (v.prerelease != "" ==> PreReleaseText(v.prerelease))
    && (v.build != "" ==> BuildText(v.build))
  }

  function Optional(mark: string, s: Option<string>): string
  {
    if s.Some? then mark + s.value else ""
  }

  /** The pattern, group by group. */
  ghost predicate Matches(s: string, major: string, minor: string, patch: string, pre: Option<string>,
                          build: Option<string>)
  {
    && s == major + "." + minor + "." + patch + Optional("-", pre) + Optional("+", build)
    && Canonical(major) && Canonical(minor) && Canonical(patch)
    && (pre.Some? ==> PreReleaseText(pre.value))
    && (build.Some? ==> BuildText(build.value))
  }

  lemma NumberChars(s: string)
    requires Canonical(s)
    ensures '.' !in s && '-' !in s && '+' !in s
  {
  }

  lemma PreReleaseChars(s: string)
    requires PreReleaseText(s)
    ensures '+' !in s && s != ""
  {
    SplitClean(s, '.');
    assert forall p | p in Split(s, '.') :: '+' !in p;
    assert Split(s, '.')[0] in Split(s, '.');
  }

  lemma BuildChars(s: string)
    requires BuildText(s)
    ensures s != ""
  {
    assert Split(s, '.')[0] in Split(s, '.');
  }

  /** However the groups are filled when the pattern matches, they are the ones computed here. */
  lemma MatchesOnlyGroups(s: string, major: string, minor: string, patch: string, pre: Option<string>,
                          build: Option<string>)
    requires Matches(s, major, minor, patch, pre, build)
    ensures Groups(s) == Some([major, minor, patch, Optional("", pre), Optional("", build)])
  {
    Pieces(major, minor, patch, pre, build);
    hide Canonical, PreReleaseText, BuildText, Split, Cut;
    assert pre.Some? ==> Optional("", pre) == pre.value;
    assert build.Some? ==> Optional("", build) == build.value;
    var n := [major, minor, patch];
    assert n + [Optional("", pre), Optional("", build)]
        == [major, minor, patch, Optional("", pre), Optional("", build)];
  }

  /** Cutting a match at its separators gives back its parts. */
  lemma Pieces(major: string, minor: string, patch: string, pre: Option<string>, build: Option<string>)
    requires Canonical(major) && Canonical(minor) && Canonical(patch) && (pre.Some? ==> PreReleaseText(pre.value))
    ensures var numbers := major + "." + minor + "." + patch;
            && Split(numbers, '.') == [major, minor, patch]
            && Cut(numbers + Optional("-", pre), '-') == (numbers, pre)
            && Cut(numbers + Optional("-", pre) + Optional("+", build), '+') == (numbers + Optional("-", pre), build)
  {
    NumberChars(major);
    NumberChars(minor);
    NumberChars(patch);
    if pre.Some? {
      PreReleaseChars(pre.value);
    }
    hide Canonical, PreReleaseText, BuildText, Split, Join, Cut;
    var numbers := major + "." + minor + "." + patch;
    JoinThree([major, minor, patch], '.');
    SplitJoin([major, minor, patch], '.');
    CutAt(numbers, pre, '-');
    CutAt(numbers + Optional("-", pre), build, '+');
  }

  /** The groups computed here are a match. */
  lemma GroupsMatch(s: string)
    requires Groups(s).Some?
    ensures var (rest, build) := Cut(s, '+');
            var (numbers, pre) := Cut(rest, '-');
            var n := Split(numbers, '.');
            |n| == 3 && Matches(s, n[0], n[1], n[2], pre, build)
  {
    var (rest, build) := Cut(s, '+');
    var (numbers, pre) := Cut(rest, '-');
    var n := Split(numbers, '.');
    JoinSplit(numbers, '.');
    JoinThree(n, '.');
    hide Canonical, PreReleaseText, BuildText;
    assert rest == numbers + Optional("-", pre);
    assert s == rest + Optional("+", build);
  }

  lemma PrintedMatches(v: SemVersion)
    requires Valid(v)
    ensures Matches(ToString(v), Print(v.major), Print(v.minor), Print(v.patch),
                    if v.prerelease == "" then None else Some(v.prerelease),
                    if v.build == "" then None else Some(v.build))
  {
    PrintParses(v.major);
    PrintParses(v.minor);
    PrintParses(v.patch);
  }

  /** The strings accepted are exactly the printed form of the result, bare or after a v or V: parsing inverts printing
      for every valid version, and printing inverts parsing up to that prefix. */
  lemma AcceptsExactly(version: string, v: SemVersion)
    ensures NewSemVersion(version) == Some(v) <==>
              Valid(v) && version in [ToString(v), "v" + ToString(v), "V" + ToString(v)]
  {
    if NewSemVersion(version) == Some(v) {
      ParsedPrints(version, v);
    }
    if Valid(v) && version in [ToString(v), "v" + ToString(v), "V" + ToString(v)] {
      PrintedParses(version, v);
    }
  }

  lemma ParsedPrints(version: string, v: SemVersion)
    requires NewSemVersion(version) == Some(v)
    ensures Valid(v) && version in [ToString(v), "v" + ToString(v), "V" + ToString(v)]
  {
    var s := Unprefixed(version).value;
    GroupsMatch(s);
    var (rest, build) := Cut(s, '+');
    var (numbers, pre) := Cut(rest, '-');
    var n := Split(numbers, '.');
    MatchesOnlyGroups(s, n[0], n[1], n[2], pre, build);
    hide Groups;
    MatchPrints(s, n[0], n[1], n[2], pre, build, v);
    hide ToString, Matches, Valid;
    assert version == s || version == [version[0]] + s;
  }

  /** Printing the value of a match gives the matched text. */
  lemma MatchPrints(s: string, major: string, minor: string, patch: string, pre: Option<string>, build: Option<string>,
                    v: SemVersion)
    requires Matches(s, major, minor, patch, pre, build) && Number(major) && Number(minor) && Number(patch)
    requires v == SemVersion(Value(major), Value(minor), Value(patch), Optional("", pre), Optional("", build))
    ensures Valid(v) && ToString(v) == s
  {
    ParsePrints(major);
    ParsePrints(minor);
    ParsePrints(patch);
    if pre.Some? { PreReleaseChars(pre.value); }
    if build.Some? { BuildChars(build.value); }
    hide Canonical, PreReleaseText, BuildText, Print, Value;
    assert pre.Some? ==> v.prerelease == pre.value;
    assert build.Some? ==> v.build == build.value;
    assert Optional("-", pre) == if v.prerelease != "" then "-" + v.prerelease else "";
    assert Optional("+", build) == if v.build != "" then "+" + v.build else "";
  }

  lemma PrintedParses(version: string, v: SemVersion)
    requires Valid(v) && version in [ToString(v), "v" + ToString(v), "V" + ToString(v)]
    ensures NewSemVersion(version) == Some(v)
  {
    var s := ToString(v);
    var pre := if v.prerelease == "" then None else Some(v.prerelease);
    var build := if v.build == "" then None else Some(v.build);
    PrintedMatches(v);
    PrintedPrefix(version, v);
    MatchesOnlyGroups(s, Print(v.major), Print(v.minor), Print(v.patch), pre, build);
    PrintParses(v.major);
    PrintParses(v.minor);
    PrintParses(v.patch);
    hide Groups, ToString, Matches, Print, Unprefixed, Canonical, Value, PreReleaseText, BuildText, NewSemVersion;
    FromGroups(version, s, [Print(v.major), Print(v.minor), Print(v.patch), Optional("", pre), Optional("", build)]);
    assert Optional("", pre) == v.prerelease && Optional("", build) == v.build;
  }

  lemma FromGroups(version: string, s: string, g: seq<string>)
    requires Unprefixed(version) == Some(s) && |g| == 5 && Groups(s) == Some(g)
    requires Number(g[0]) && Number(g[1]) && Number(g[2])
    ensures NewSemVersion(version) == Some(SemVersion(Value(g[0]), Value(g[1]), Value(g[2]), g[3], g[4]))
  {
    hide Groups, Unprefixed;
  }

  lemma PrintedPrefix(version: string, v: SemVersion)
    requires version in [ToString(v), "v" + ToString(v), "V" + ToString(v)]
    ensures Unprefixed(version) == Some(ToString(v))
  {
    var s := ToString(v);
    PrintParses(v.major);
    assert s[0] == Print(v.major)[0] && Digit(s[0]);
    assert ("v" + s)[1..] == s && ("V" + s)[1..] == s;
  }
}
