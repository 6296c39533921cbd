/**
 Precedence of versions with build identifiers, the lowest version of a set of machines, and the version rule that
 guards updates of a managed cluster.
 */
module VersionOrder {
  import opened Options
  import opened Orders
  import opened Decimals

  /** The four results of a comparison: -1, 0, 1 and 2. */
  datatype Order = Less | Equal | Greater | Different

  function Flip(o: Order): Order
  {
    match o case Less => Greater case Greater => Less case _ => o
  }

  /** An identifier: all digits, or text. */
  datatype Id = Num(n: nat) | Text(s: string)

  datatype Version = Version(major: nat, minor: nat, patch: nat, pre: seq<Id>, build: seq<string>)

  function CompareNat(a: nat, b: nat): Order
  {
    if a < b then Less else if a == b then Equal else Greater
  }

  /** Pre-release identifiers: numbers below text, text in string order. */
  function ComparePreId(a: Id, b: Id): Order
  {
    match (a, b)
    case (Num(_), Text(_)) => Less
    case (Text(_), Num(_)) => Greater
    case (Num(x), Num(y)) => CompareNat(x, y)
    case (Text(x), Text(y)) => if x == y then Equal else if StringLess(y, x) then Greater else Less
  }

  /** Build identifiers: numbers below text, different texts cannot be ordered. */
  function CompareBuildId(a: Id, b: Id): Order
  {
    match (a, b)
    case (Num(_), Text(_)) => Less
    case (Text(_), Num(_)) => Greater
    case (Num(x), Num(y)) => CompareNat(x, y)
    case (Text(x), Text(y)) => if x == y then Equal else Different
  }

  /** The first difference decides, then the length. */
  function CompareIds(a: seq<Id>, b: seq<Id>, compare: (Id, Id) -> Order): Order
  {
    if a == [] then (if b == [] then Equal else Less)
    else if b == [] then Greater
    else
      var c := compare(a[0], b[0]);
      if c != Equal then c else CompareIds(a[1..], b[1..], compare)
  }

  const MAX_UINT64 := 0xFFFF_FFFF_FFFF_FFFF

  /** Digits saturate at the largest 64-bit number. */
  function BuildId(s: string): Id
  {
    if Digits(s) then Num(if Value(s) > MAX_UINT64 then MAX_UINT64 else Value(s)) else Text(s)
  }

  function BuildIds(ss: seq<string>): (r: seq<Id>)
    ensures |r| == |ss|
  {
    seq(|ss|, i requires 0 <= i < |ss| => BuildId(ss[i]))
  }

  method CompareBuildIds(a: seq<Id>, b: seq<Id>) returns (r: Order)
    ensures r == CompareIds(a, b, CompareBuildId)
  {
    var i := 0;
    while i < |a| && i < |b|
      invariant i <= |a| && i <= |b|
      invariant CompareIds(a[i..], b[i..], CompareBuildId) == CompareIds(a, b, CompareBuildId)
    {
      var c := CompareBuildId(a[i], b[i]);
      if c != Equal {
        return c;
      }
      assert a[i..][1..] == a[i + 1..] && b[i..][1..] == b[i + 1..];
      i := i + 1;
    }
    if i == |a| && i == |b| {
      return Equal;
    } else if i == |a| {
      return Less;
    } else {
      return Greater;
    }
  }

  /** Precedence of Semantic Versioning 2.0.0, item 11: build metadata does not count. */
  function CompareRelease(a: Version, b: Version): Order
  {
    if a.major != b.major then CompareNat(a.major, b.major)
    else if a.minor != b.minor then CompareNat(a.minor, b.minor)
    else if a.patch != b.patch then CompareNat(a.patch, b.patch)
    else if a.pre == [] then (if b.pre == [] then Equal else Greater)
    else if b.pre == [] then Less
    else CompareIds(a.pre, b.pre, ComparePreId)
  }

  /** The comparison with build tags. */
  function Compare(a: Version, b: Version): Order
  {
    var c := CompareRelease(a, b);
    if c != Equal then c else CompareIds(BuildIds(a.build), BuildIds(b.build), CompareBuildId)
  }

  // ---- what decides a comparison ----

  /** The lists first differ at `i`, or one ends there. */
  ghost predicate FirstDifference<T>(a: seq<T>, b: seq<T>, i: nat)
  {
    i <= |a| && i <= |b| && a[..i] == b[..i] && (i < |a| && i < |b| ==> a[i] != b[i])
  }

  lemma {:induction false} IdsDecided(a: seq<Id>, b: seq<Id>, i: nat, compare: (Id, Id) -> Order)
    requires i <= |a| && i <= |b| && forall j | 0 <= j < i :: compare(a[j], b[j]) == Equal
    requires i < |a| && i < |b| ==> compare(a[i], b[i]) != Equal
    ensures CompareIds(a, b, compare) ==
            if i < |a| && i < |b| then compare(a[i], b[i])
            else if i < |b| then Less else if i < |a| then Greater else Equal
  {
    if i > 0 {
      assert compare(a[0], b[0]) == Equal;
      IdsDecided(a[1..], b[1..], i - 1, compare);
    }
  }

  /** Where pre-release identifiers first differ a number is below text, the smaller number and the smaller text come
      first; a proper prefix is below. */
  lemma PreMeaning(a: seq<Id>, b: seq<Id>, i: nat)
    requires FirstDifference(a, b, i)
    ensures CompareIds(a, b, ComparePreId) == Less <==>
              && i < |b|
              && (i == |a| || match (a[i], b[i])
                              case (Num(x), Num(y)) => x < y
                              case (Num(_), Text(_)) => true
                              case (Text(_), Num(_)) => false
                              case (Text(x), Text(y)) => StringLess(x, y))
  {
    forall j | 0 <= j < i
      ensures ComparePreId(a[j], b[j]) == Equal
    {
      assert a[j] == a[..i][j] == b[..i][j];
    }
    if i < |a| && i < |b| && a[i].Text? && b[i].Text? {
      StringLessTotal(a[i].s, b[i].s);
      StringLessAsymmetric(a[i].s, b[i].s);
    }
    IdsDecided(a, b, i, ComparePreId);
  }

  /** Precedence without build tags: major, minor, patch in this order; then a pre-release is below its release. */
  lemma ReleaseMeaning(a: Version, b: Version)
    ensures CompareRelease(a, b) == Less <==>
              || a.major < b.major
              || (a.major == b.major && a.minor < b.minor)
              || (a.major == b.major && a.minor == b.minor && a.patch < b.patch)
              || (a.major == b.major && a.minor == b.minor && a.patch == b.patch && a.pre != []
                  && (b.pre == [] || CompareIds(a.pre, b.pre, ComparePreId) == Less))
  {
  }

  /** Between equal releases, where the build tags first differ a number is below text, different texts cannot be
      ordered, and the smaller of two numbers of up to 64 bits is below; a proper prefix is below. */
  lemma BuildMeaning(a: Version, b: Version, i: nat)
    requires CompareRelease(a, b) == Equal && FirstDifference(a.build, b.build, i)
    ensures i == |a.build| && i == |b.build| ==> Compare(a, b) == Equal
    ensures i == |a.build| && i < |b.build| ==> Compare(a, b) == Less
    ensures i < |a.build| && i == |b.build| ==> Compare(a, b) == Greater
    ensures i < |a.build| && i < |b.build| ==>
              var x, y := a.build[i], b.build[i];
              && (Digits(x) && !Digits(y) ==> Compare(a, b) == Less)
              && (!Digits(x) && Digits(y) ==> Compare(a, b) == Greater)
              && (!Digits(x) && !Digits(y) ==> Compare(a, b) == Different)
              && (Digits(x) && Digits(y) && Value(x) < Value(y) && Value(x) < MAX_UINT64 ==> Compare(a, b) == Less)
  {
    var p, q := BuildIds(a.build), BuildIds(b.build);
    forall j | 0 <= j < i
      ensures CompareBuildId(p[j], q[j]) == Equal
    {
      assert a.build[j] == a.build[..i][j] == b.build[..i][j];
    }
    hide CompareRelease, Value, Digits;
    if !(i < |p| && i < |q| && CompareBuildId(p[i], q[i]) == Equal) {
      IdsDecided(p, q, i, CompareBuildId);
    }
  }

  // ---- laws ----

  /** A comparison in which less is transitive and mirrored by greater, and equals behave alike. */
  ghost predicate Lawful<T>(a: T, b: T, c: T, compare: (T, T) -> Order)
  {
    && compare(a, a) == Equal
    && compare(b, a) == Flip(compare(a, b))
    && (compare(a, b) == Less && compare(b, c) == Less ==> compare(a, c) == Less)
    && (compare(a, b) == Equal ==> compare(a, c) == compare(b, c))
  }

  lemma PreIdLawful(a: Id, b: Id, c: Id)
    ensures Lawful(a, b, c, ComparePreId)
    ensures ComparePreId(a, b) != Different
  {
    if a.Text? && b.Text? {
      StringLessTotal(a.s, b.s);
      StringLessAsymmetric(a.s, b.s);
      if c.Text? && StringLess(a.s, b.s) && StringLess(b.s, c.s) {
        StringLessTransitive(a.s, b.s, c.s);
        StringLessAsymmetric(a.s, c.s);
      }
      if c.Text? {
        StringLessTotal(b.s, c.s);
      }
    }
  }

  lemma StringLessAsymmetric(a: string, b: string)
    ensures !(StringLess(a, b) && StringLess(b, a)) && !StringLess(a, a)
  {
    StringLessIrreflexive(a);
    if StringLess(a, b) && StringLess(b, a) {
      StringLessTransitive(a, b, a);
    }
  }

  lemma BuildIdLawful(a: Id, b: Id, c: Id)
    ensures Lawful(a, b, c, CompareBuildId)
  {
  }

  ghost predicate AllLawful(compare: (Id, Id) -> Order)
  {
    forall x, y, z :: Lawful(x, y, z, compare)
  }

  /** The laws pass from identifiers to lists of identifiers. */
  lemma {:induction false} IdsLawful(a: seq<Id>, b: seq<Id>, c: seq<Id>, compare: (Id, Id) -> Order)
    requires AllLawful(compare)
    ensures Lawful(a, b, c, (x, y) => CompareIds(x, y, compare))
    decreases |a| + |b| + |c|
  {
    IdsReflexive(a, compare);
    if a != [] && b != [] {
      assert Lawful(a[0], b[0], b[0], compare);
      IdsLawful(a[1..], b[1..], if c == [] then [] else c[1..], compare);
      if c != [] {
        assert Lawful(a[0], b[0], c[0], compare) && Lawful(b[0], c[0], a[0], compare)
               && Lawful(b[0], a[0], c[0], compare)
               && Lawful(c[0], b[0], a[0], compare) && Lawful(c[0], a[0], b[0], compare);
      }
    }
  }

  lemma {:induction false} IdsReflexive(a: seq<Id>, compare: (Id, Id) -> Order)
    requires AllLawful(compare)
    ensures CompareIds(a, a, compare) == Equal
  {
    if a != [] {
      assert Lawful(a[0], a[0], a[0], compare);
      IdsReflexive(a[1..], compare);
    }
  }

  lemma {:induction false} PreIdsNeverDifferent(a: seq<Id>, b: seq<Id>)
    ensures CompareIds(a, b, ComparePreId) != Different
  {
    if a != [] && b != [] {
      PreIdLawful(a[0], b[0], b[0]);
      PreIdsNeverDifferent(a[1..], b[1..]);
    }
  }

  /** Precedence without build tags is a total preorder. */
  lemma ReleaseLawful(a: Version, b: Version, c: Version)
    ensures Lawful(a, b, c, CompareRelease)
    ensures CompareRelease(a, b) != Different
  {
    forall x, y, z
      ensures Lawful(x, y, z, ComparePreId)
    {
      PreIdLawful(x, y, z);
    }
    IdsLawful(a.pre, b.pre, c.pre, ComparePreId);
    PreIdsNeverDifferent(a.pre, b.pre);
    PreLaws(a, b, c);
  }

  lemma PreLaws(a: Version, b: Version, c: Version)
    requires Lawful(a.pre, b.pre, c.pre, (x, y) => CompareIds(x, y, ComparePreId))
    ensures Lawful(a, b, c, CompareRelease)
  {
    hide CompareIds;
    var f := (x, y) => CompareIds(x, y, ComparePreId);
    assert f(a.pre, b.pre) == CompareIds(a.pre, b.pre, ComparePreId)
           && f(b.pre, a.pre) == CompareIds(b.pre, a.pre, ComparePreId)
           && f(a.pre, c.pre) == CompareIds(a.pre, c.pre, ComparePreId)
           && f(b.pre, c.pre) == CompareIds(b.pre, c.pre, ComparePreId)
           && f(a.pre, a.pre) == CompareIds(a.pre, a.pre, ComparePreId);
  }

  /** With build tags: less is transitive and mirrored by greater, equal is an equivalence that every comparison
      respects, and "different" is symmetric. */
  lemma CompareLawful(a: Version, b: Version, c: Version)
    ensures Lawful(a, b, c, Compare)
  {
    forall x, y, z
      ensures Lawful(x, y, z, CompareBuildId)
    {
      BuildIdLawful(x, y, z);
    }
    hide CompareRelease, CompareIds;
    ReleaseLawful(a, b, c);
    ReleaseLawful(b, c, a);
    ReleaseLawful(b, a, c);
    var f := (x, y) => CompareIds(x, y, CompareBuildId);
    var p, q, r := BuildIds(a.build), BuildIds(b.build), BuildIds(c.build);
    IdsLawful(p, q, r, CompareBuildId);
    assert f(p, q) == CompareIds(p, q, CompareBuildId) && f(q, p) == CompareIds(q, p, CompareBuildId)
           && f(p, r) == CompareIds(p, r, CompareBuildId) && f(q, r) == CompareIds(q, r, CompareBuildId)
           && f(p, p) == CompareIds(p, p, CompareBuildId);
    ReleaseLawful(c, b, a);
    ReleaseLawful(a, c, b);
    ReleaseLawful(c, a, b);
  }

  // ---- the lowest version of a set of machines ----

  /** `version` is None when the machine has none or it does not parse. */
  datatype Machine = Machine(name: string, version: Option<Version>)

  predicate MachineLess(a: Machine, b: Machine)
  {
    a.version.Some? && b.version.Some? &&
    var c := Compare(a.version.value, b.version.value);
    if c == Equal then StringLess(a.name, b.name) else c == Less
  }

  function WithVersion(ms: seq<Machine>): (r: seq<Machine>)
    ensures forall m :: m in r <==> m in ms && m.version.Some?
    ensures forall m :: multiset(r)[m] == if m.version.Some? then multiset(ms)[m] else 0
  {
    if ms == [] then []
    else
      assert ms == [ms[0]] + ms[1..];
      (if ms[0].version.Some? then [ms[0]] else []) + WithVersion(ms[1..])
  }

  /** `ms` lists the machines in the order in which the map is iterated. */
  function LowestVersion(ms: seq<Machine>): Option<Version>
  {
    var sorted := Sort(WithVersion(ms), MachineLess);
    if sorted == [] then None else sorted[0].version
  }

  ghost predicate DistinctNames(dom: set<Machine>)
  {
    forall x, y | x in dom && y in dom && x.name == y.name :: x == y
  }

  /** No two versions differ only in build text. */
  ghost predicate Comparable(dom: set<Machine>)
  {
    && (forall x | x in dom :: x.version.Some?)
    && (forall x, y | x in dom && y in dom :: Compare(x.version.value, y.version.value) != Different)
  }

  lemma WeakStep(x: Machine, y: Machine, z: Machine)
    requires Comparable({x, y, z}) && MachineLess(x, y)
    ensures !MachineLess(y, x) && (!MachineLess(z, y) ==> MachineLess(x, z))
  {
    assert x in {x, y, z} && y in {x, y, z} && z in {x, y, z};
    var a, b, c := x.version.value, y.version.value, z.version.value;
    assert Compare(z.version.value, y.version.value) != Different;
    hide Compare;
    CompareLawful(a, b, c);
    CompareLawful(b, a, c);
    CompareLawful(c, b, a);
    CompareLawful(b, c, a);
    CompareLawful(c, a, b);
    StringLessAsymmetric(x.name, y.name);
    StringLessTotal(z.name, y.name);
    if StringLess(x.name, y.name) && StringLess(y.name, z.name) {
      StringLessTransitive(x.name, y.name, z.name);
    }
  }

  lemma MachineLessOrders(dom: set<Machine>)
    requires Comparable(dom)
    ensures StrictWeakOrderOn(dom, MachineLess)
  {
    hide MachineLess;
    forall x, y, z | x in dom && y in dom && z in dom && MachineLess(x, y)
      ensures !MachineLess(y, x) && (!MachineLess(z, y) ==> MachineLess(x, z))
    {
      ComparableSubset(dom, {x, y, z});
      WeakStep(x, y, z);
    }
    forall x, y | x in dom && y in dom && MachineLess(x, y)
      ensures !MachineLess(y, x)
    {
      ComparableSubset(dom, {x, y, y});
      WeakStep(x, y, y);
    }
  }

  lemma ComparableSubset(dom: set<Machine>, part: set<Machine>)
    requires Comparable(dom) && part <= dom
    ensures Comparable(part)
  {
  }

  lemma MachineLessTotal(dom: set<Machine>)
    requires Comparable(dom) && DistinctNames(dom)
    ensures TotalOn(dom, MachineLess)
  {
    forall x, y | x in dom && y in dom && x != y
      ensures MachineLess(x, y) != MachineLess(y, x)
    {
      assert Compare(x.version.value, y.version.value) != Different;
      CompareLawful(x.version.value, y.version.value, x.version.value);
      CompareLawful(y.version.value, x.version.value, y.version.value);
      hide Compare;
      StringLessTotal(x.name, y.name);
      StringLessAsymmetric(x.name, y.name);
    }
  }

  /** The result is a machine's version and no machine's version is below it. */
  lemma LowestIsLeast(ms: seq<Machine>)
    requires Comparable(set m | m in ms && m.version.Some?)
    ensures LowestVersion(ms).None? <==> forall m | m in ms :: m.version.None?
    ensures LowestVersion(ms).Some? ==>
              && (exists m :: m in ms && m.version == LowestVersion(ms))
              && (forall m | m in ms && m.version.Some? :: Compare(m.version.value, LowestVersion(ms).value) != Less)
  {
    var dom := set m | m in ms && m.version.Some?;
    var sorted := Sort(WithVersion(ms), MachineLess);
    MachineLessOrders(dom);
    SortSorts(WithVersion(ms), MachineLess, dom);
    SameElements(sorted, WithVersion(ms));
    hide Sort, SortedBy, Compare, StrictWeakOrderOn, Comparable;
    if sorted != [] {
      assert sorted[0] in sorted;
      forall m | m in ms && m.version.Some?
        ensures Compare(m.version.value, sorted[0].version.value) != Less
      {
        FirstLeast(sorted, m);
      }
    }
  }

  lemma SameElements(a: seq<Machine>, b: seq<Machine>)
    requires multiset(a) == multiset(b)
    ensures forall m :: m in a <==> m in b
  {
    assert forall m :: m in a <==> m in multiset(a);
    assert forall m :: m in b <==> m in multiset(b);
  }

  lemma FirstLeast(sorted: seq<Machine>, m: Machine)
    requires SortedBy(sorted, MachineLess) && m in sorted && m.version.Some? && sorted[0].version.Some?
    ensures Compare(m.version.value, sorted[0].version.value) != Less
  {
    hide Compare;
    CompareLawful(m.version.value, m.version.value, m.version.value);
    var i :| 0 <= i < |sorted| && sorted[i] == m;
    assert i > 0 ==> !MachineLess(sorted[i], sorted[0]);
  }

  /** It does not depend on the order in which the machines are iterated. */
  lemma LowestOrderFree(a: seq<Machine>, b: seq<Machine>)
    requires multiset(a) == multiset(b)
    requires Comparable(set m | m in a && m.version.Some?) && DistinctNames(set m | m in a && m.version.Some?)
    ensures LowestVersion(a) == LowestVersion(b)
  {
    var dom := set m | m in a && m.version.Some?;
    var x, y := WithVersion(a), WithVersion(b);
    assert multiset(x) == multiset(y);
    MachineLessOrders(dom);
    MachineLessTotal(dom);
    assert forall m | m in x :: m in dom;
    hide MachineLess, WithVersion, Comparable, DistinctNames, StrictWeakOrderOn, TotalOn, Sort, SortedBy;
    SameElements(x, y);
    SameElements(x, Sort(x, MachineLess));
    SortSorts(x, MachineLess, dom);
    SortSorts(y, MachineLess, dom);
    SortedUnique(Sort(x, MachineLess), Sort(y, MachineLess), MachineLess, dom);
  }

  // ---- updates of a cluster's version ----

  const ZERO := Version(0, 0, 0, [], [])

  function Ceiling(before: Version): Version
  {
    Version(before.major, (before.minor + 2) % (MAX_UINT64 + 1), 0, [], [])
  }

  /** The version rule for an update; None is a version that does not parse. */
  predicate VersionAccepted(before: Option<Version>, after: Option<Version>)
  {
    && before.Some? && after.Some?
    && !(CompareRelease(after.value, ZERO) != Equal && CompareRelease(before.value, ZERO) != Equal
         && Compare(after.value, before.value) == Less)
    && CompareRelease(after.value, Ceiling(before.value)) == Less
  }

  predicate Zero(v: Version)
  {
    CompareRelease(v, ZERO) == Equal
  }

  /** Below the first release two minor versions up, a number that wraps around at 64 bits. */
  predicate BelowCeiling(before: Version, after: Version)
  {
    var ceiling := (before.minor + 2) % (MAX_UINT64 + 1);
    || after.major < before.major
    || (after.major == before.major
        && (after.minor < ceiling || (after.minor == ceiling && after.patch == 0 && after.pre != [])))
  }

  /** An update is accepted exactly when it stays below the ceiling and does not decrease the version, unless one of the
      two is 0.0.0. Between other versions that means: it keeps the major number and raises the minor number by at most
      one, or by two to a pre-release of the first patch; and never once the minor number plus two wraps around. */
  lemma AcceptedExactly(before: Version, after: Version)
    requires before.minor <= MAX_UINT64 && after.minor <= MAX_UINT64
    ensures VersionAccepted(Some(before), Some(after)) <==>
              BelowCeiling(before, after) && (Zero(before) || Zero(after) || Compare(after, before) != Less)
    ensures !Zero(before) && !Zero(after) ==>
              (VersionAccepted(Some(before), Some(after)) <==>
                 && before.minor + 2 <= MAX_UINT64
                 && Compare(after, before) != Less
                 && after.major == before.major
                 && (after.minor <= before.minor + 1
                     || (after.minor == before.minor + 2 && after.patch == 0 && after.pre != [])))
  {
    assert Compare(after, before) != Less ==> CompareRelease(after, before) != Less;
    hide CompareIds;
    if before.minor + 2 <= MAX_UINT64 {
      assert Ceiling(before).minor == before.minor + 2;
    } else {
      assert Ceiling(before).minor == before.minor + 2 - (MAX_UINT64 + 1);
    }
  }

  ghost predicate AcceptedChain(vs: seq<Version>)
  {
    && (forall k | 0 <= k < |vs| :: vs[k].minor <= MAX_UINT64)
    && (forall k | 0 <= k < |vs| - 1 :: VersionAccepted(Some(vs[k]), Some(vs[k + 1])))
  }

  // ---- precedence along a chain ----

  /** The update goes down to 0.0.0, or from it to one of its pre-releases. */
  predicate Falls(before: Version, after: Version)
  {
    || (Zero(after) && CompareRelease(before, ZERO) == Greater)
    || (Zero(before) && CompareRelease(after, ZERO) == Less)
  }

  /** Only these accepted updates go down in precedence; all others keep the major and do not lower the minor number. */
  lemma FallsExactly(before: Version, after: Version)
    requires before.minor <= MAX_UINT64 && after.minor <= MAX_UINT64
    requires VersionAccepted(Some(before), Some(after))
    ensures CompareRelease(after, before) == Less <==> Falls(before, after)
    ensures !Falls(before, after) ==> after.major == before.major && before.minor <= after.minor
  {
    AcceptedExactly(before, after);
    ReleaseLawful(before, ZERO, after);
    ReleaseLawful(after, ZERO, before);
    ReleaseLawful(ZERO, after, before);
    ReleaseLawful(ZERO, before, after);
    hide CompareIds;
  }

  lemma NotLessTransitive(a: Version, b: Version, c: Version)
    requires CompareRelease(b, a) != Less && CompareRelease(c, b) != Less
    ensures CompareRelease(c, a) != Less
  {
    hide CompareRelease;
    ReleaseLawful(a, b, c);
    ReleaseLawful(b, c, a);
    ReleaseLawful(b, a, c);
    ReleaseLawful(c, a, b);
    ReleaseLawful(c, b, a);
    ReleaseLawful(a, c, b);
  }

  ghost predicate StepsHold(vs: seq<Version>)
  {
    forall k | 0 <= k < |vs| - 1 :: !Falls(vs[k], vs[k + 1])
  }

  lemma {:induction false} HeldBetween(vs: seq<Version>, i: nat, j: nat)
    requires AcceptedChain(vs) && StepsHold(vs) && i <= j < |vs|
    ensures CompareRelease(vs[j], vs[i]) != Less && vs[j].major == vs[i].major && vs[i].minor <= vs[j].minor
    decreases j - i
  {
    if i == j {
      ReleaseLawful(vs[i], vs[i], vs[i]);
    } else {
      HeldBetween(vs, i, j - 1);
      var k := j - 1;
      assert VersionAccepted(Some(vs[k]), Some(vs[k + 1])) && !Falls(vs[k], vs[k + 1]);
      hide CompareRelease, VersionAccepted, Falls;
      FallsExactly(vs[k], vs[k + 1]);
      NotLessTransitive(vs[i], vs[k], vs[j]);
    }
  }

  /** Along any chain of accepted updates precedence never falls exactly when no single update goes down to 0.0.0 or
      below it, as none does in a chain that avoids 0.0.0; then the minor number never falls and the major number never
      changes either. */
  lemma ChainNeverFalls(vs: seq<Version>)
    requires AcceptedChain(vs)
    ensures (forall i, j | 0 <= i <= j < |vs| :: CompareRelease(vs[j], vs[i]) != Less) <==> StepsHold(vs)
    ensures StepsHold(vs) ==>
              forall i, j | 0 <= i <= j < |vs| :: vs[j].major == vs[i].major && vs[i].minor <= vs[j].minor
    ensures (forall k | 0 <= k < |vs| :: !Zero(vs[k])) ==> StepsHold(vs)
  {
    if StepsHold(vs) {
      forall i, j | 0 <= i <= j < |vs|
        ensures CompareRelease(vs[j], vs[i]) != Less && vs[j].major == vs[i].major && vs[i].minor <= vs[j].minor
      {
        HeldBetween(vs, i, j);
      }
    } else {
      var k :| 0 <= k < |vs| - 1 && Falls(vs[k], vs[k + 1]);
      FallsExactly(vs[k], vs[k + 1]);
      hide CompareRelease, Falls;
      var i, j := k, k + 1;
      assert CompareRelease(vs[j], vs[i]) == Less;
    }
  }

  // ---- build tags along a chain ----

  /** Compared with build tags, `after` is the same as `before` or above it. */
  predicate AtLeast(before: Version, after: Version)
  {
    Compare(after, before) == Equal || Compare(after, before) == Greater
  }

  lemma AtLeastTransitive(a: Version, b: Version, c: Version)
    requires AtLeast(a, b) && AtLeast(b, c)
    ensures AtLeast(a, c)
  {
    hide Compare;
    CompareLawful(a, b, c);
    CompareLawful(b, a, c);
    CompareLawful(c, b, a);
    CompareLawful(b, c, a);
    CompareLawful(c, a, b);
    CompareLawful(a, c, b);
  }

  lemma {:induction false} RisesBetween(vs: seq<Version>, i: nat, j: nat)
    requires (forall k | 0 <= k < |vs| - 1 :: AtLeast(vs[k], vs[k + 1])) && i <= j < |vs|
    ensures AtLeast(vs[i], vs[j])
    decreases j - i
  {
    if i == j {
      CompareLawful(vs[i], vs[i], vs[i]);
    } else {
      RisesBetween(vs, i, j - 1);
      var k := j - 1;
      assert AtLeast(vs[k], vs[k + 1]);
      AtLeastTransitive(vs[i], vs[k], vs[j]);
    }
  }

  /** An update that the exemption of 0.0.0 lets through although it decreases the version. */
  predicate Exempted(before: Version, after: Version)
  {
    (Zero(before) || Zero(after)) && Compare(after, before) == Less
  }

  /** Along any chain of accepted updates the version, build tags included, never goes down or sideways exactly when no
      single update is between versions that cannot be ordered, and none needs the exemption of 0.0.0. */
  lemma ChainRisesInBuild(vs: seq<Version>)
    requires AcceptedChain(vs)
    ensures (forall i, j | 0 <= i <= j < |vs| :: AtLeast(vs[i], vs[j])) <==>
              forall k | 0 <= k < |vs| - 1 :: Compare(vs[k + 1], vs[k]) != Different && !Exempted(vs[k], vs[k + 1])
    ensures (forall k | 0 <= k < |vs| :: !Zero(vs[k])) ==>
              ((forall i, j | 0 <= i <= j < |vs| :: AtLeast(vs[i], vs[j])) <==>
                 forall k | 0 <= k < |vs| - 1 :: Compare(vs[k + 1], vs[k]) != Different)
  {
    hide Compare, CompareRelease;
    forall k | 0 <= k < |vs| - 1
      ensures AtLeast(vs[k], vs[k + 1]) <==>
                Compare(vs[k + 1], vs[k]) != Different && !Exempted(vs[k], vs[k + 1])
    {
      assert VersionAccepted(Some(vs[k]), Some(vs[k + 1]));
    }
    if forall k | 0 <= k < |vs| - 1 :: AtLeast(vs[k], vs[k + 1]) {
      forall i, j | 0 <= i <= j < |vs|
        ensures AtLeast(vs[i], vs[j])
      {
        RisesBetween(vs, i, j);
      }
    } else {
      var k :| 0 <= k < |vs| - 1 && !AtLeast(vs[k], vs[k + 1]);
      var i, j := k, k + 1;
      assert !AtLeast(vs[i], vs[j]);
    }
  }

  // ---- chains that do fall ----

  function V(major: nat, minor: nat, build: seq<string>): Version
  {
    Version(major, minor, 0, [], build)
  }

  lemma TextBuild(s: string)
    requires s != [] && s[0] > '9'
    ensures BuildId(s) == Text(s)
  {
  }

  /** Build text breaks the weak order: two versions that can be ordered, and one that can be ordered with neither. */
  lemma BuildTextIncomparable()
    ensures Compare(V(1, 20, ["x", "1"]), V(1, 20, ["x", "2"])) == Less
    ensures Compare(V(1, 20, ["x", "1"]), V(1, 20, ["y"])) == Different
    ensures Compare(V(1, 20, ["y"]), V(1, 20, ["x", "2"])) == Different
    ensures Compare(V(1, 20, ["y"]), V(1, 20, ["x", "1"])) == Different
  {
    TextBuild("x");
    TextBuild("y");
    assert BuildId("1") == Num(1) && BuildId("2") == Num(2);
    var p, q, r := BuildIds(["x", "1"]), BuildIds(["x", "2"]), BuildIds(["y"]);
    assert p == [Text("x"), Num(1)] && q == [Text("x"), Num(2)] && r == [Text("y")];
    assert p[1..] == [Num(1)] && q[1..] == [Num(2)];
    assert "x" != "y";
  }

  /** Such versions let a chain of accepted updates come back down in the comparison with build tags. */
  lemma ChainMayFallInBuild()
    ensures var vs := [V(1, 20, ["x", "2"]), V(1, 20, ["y"]), V(1, 20, ["x", "1"])];
            AcceptedChain(vs) && Compare(vs[2], vs[0]) == Less
  {
    BuildTextIncomparable();
    CompareLawful(V(1, 20, ["x", "1"]), V(1, 20, ["y"]), ZERO);
    hide Compare;
  }

  /** And 0.0.0, which the rule exempts, lets it come down in precedence. */
  lemma ChainMayFallThroughZero()
    ensures var vs := [V(1, 20, []), ZERO, V(0, 1, [])];
            AcceptedChain(vs) && CompareRelease(vs[2], vs[0]) == Less
  {
  }
}
