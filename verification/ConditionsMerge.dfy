/** Collapsing many conditions into one: merge, summary and aggregate. */
module ConditionsMerge {
  import opened Decimals
  import opened Options
  import opened Orders
  import opened Conditions

  /** Name and Kind of the object a condition was read from. */
  datatype Source = Source(name: string, objectKind: string)

  /** A condition, possibly missing, with its source. */
  datatype Localized = Localized(condition: Option<Condition>, source: Source)

  datatype Item = Item(c: Condition, source: Source)

  datatype Group = Group(status: Status, severity: Severity, items: seq<Item>)

  datatype MergeOptions = MergeOptions(
    conditionTypes: Option<seq<string>>, addSourceRef: bool,
    addStepCounter: bool, stepCounterIfOnly: Option<seq<string>>, stepCounter: int)

  // ---- grouping ----

  function Priority(status: Status, severity: Severity): int
  {
    match status
    case False => (match severity
                   case Error => 0
                   case Warning => 1
                   case Info => 2
                   case _ => 99)
    case True => 3
    case Unknown => 4
    case OtherStatus(_) => 99
  }

  predicate GroupLess(a: Group, b: Group)
  {
    Priority(a.status, a.severity) < Priority(b.status, b.severity)
  }

  predicate ItemLess(a: Item, b: Item)
  {
    if a.c.kind != b.c.kind then ConditionLess(a.c, b.c) else StringLess(a.source.name, b.source.name)
  }

  predicate InGroup(x: Item, status: Status, severity: Severity)
  {
    x.c.status == status && x.c.severity == severity
  }

  function FindGroup(groups: seq<Group>, x: Item): (i: nat)
    ensures i <= |groups|
    ensures i < |groups| ==> InGroup(x, groups[i].status, groups[i].severity)
    ensures forall k | 0 <= k < i :: !InGroup(x, groups[k].status, groups[k].severity)
  {
    if groups == [] || InGroup(x, groups[0].status, groups[0].severity) then 0 else 1 + FindGroup(groups[1..], x)
  }

  function AddToGroups(groups: seq<Group>, x: Item): seq<Group>
  {
    var i := FindGroup(groups, x);
    if i < |groups| then groups[i := groups[i].(items := groups[i].items + [x])]
    else groups + [Group(x.c.status, x.c.severity, [x])]
  }

  function Present(conds: seq<Localized>): seq<Item>
  {
    if conds == [] then []
    else
      var n := |conds| - 1;
      Present(conds[..n]) + if conds[n].condition.Some? then [Item(conds[n].condition.value, conds[n].source)] else []
  }

  function Collect(items: seq<Item>): seq<Group>
  {
    if items == [] then [] else AddToGroups(Collect(items[..|items| - 1]), items[|items| - 1])
  }

  function SortTop(groups: seq<Group>): seq<Group>
  {
    if groups == [] then [] else groups[0 := groups[0].(items := Sort(groups[0].items, ItemLess))]
  }

  function ConditionGroups(conds: seq<Localized>): seq<Group>
  {
    SortTop(Sort(Collect(Present(conds)), GroupLess))
  }

  /** The inner loop: join the condition's group, or start one. */
  method AddItem(was: seq<Group>, x: Item) returns (groups: seq<Group>)
    ensures groups == AddToGroups(was, x)
  {
    groups := was;
    for i := 0 to |was|
      invariant groups == was && forall k | 0 <= k < i :: !InGroup(x, was[k].status, was[k].severity)
    {
      if InGroup(x, was[i].status, was[i].severity) {
        return was[i := was[i].(items := was[i].items + [x])];
      }
    }
    groups := was + [Group(x.c.status, x.c.severity, [x])];
  }

  method GetConditionGroups(conds: seq<Localized>) returns (groups: seq<Group>)
    ensures groups == ConditionGroups(conds)
  {
    hide AddToGroups, Sort, GroupLess, ItemLess;
    groups := [];
    assert conds[..0] == [];
    for n := 0 to |conds|
      invariant groups == Collect(Present(conds[..n]))
    {
      assert conds[..n + 1][..n] == conds[..n];
      if conds[n].condition.None? {
        assert Present(conds[..n + 1]) == Present(conds[..n]);
      } else {
        var x := Item(conds[n].condition.value, conds[n].source);
        assert Present(conds[..n + 1]) == Present(conds[..n]) + [x];
        assert (Present(conds[..n]) + [x])[..|Present(conds[..n])|] == Present(conds[..n]);
        groups := AddItem(groups, x);
      }
    }
    assert conds[..|conds|] == conds;
    groups := Sort(groups, GroupLess);
    if |groups| > 0 {
      groups := groups[0 := groups[0].(items := Sort(groups[0].items, ItemLess))];
    }
  }

  // ---- reason and message ----

  function FirstOfKind(items: seq<Item>, t: string): Option<Item>
  {
    if items == [] then None
    else if items[0].c.kind == t then Some(items[0])
    else FirstOfKind(items[1..], t)
  }

  function FirstByPriority(items: seq<Item>, order: seq<string>): Option<Item>
  {
    if order == [] then None
    else match FirstOfKind(items, order[0])
         case Some(x) => Some(x)
         case None => FirstByPriority(items, order[1..])
  }

  function FirstCondition(top: seq<Item>, order: seq<string>): Option<Item>
  {
    if |top| == 0 then None
    else if |top| == 1 then Some(top[0])
    else match FirstByPriority(top, order)
         case Some(x) => Some(x)
         case None => Some(top[0])
  }

  function LocalizeReason(reason: string, from: Source): string
  {
    if '@' in reason then reason else reason + " @ " + from.objectKind + "/" + from.name
  }

  function Order(opts: MergeOptions): seq<string>
  {
    if opts.conditionTypes.Some? then opts.conditionTypes.value else []
  }

  function Reason(top: seq<Item>, opts: MergeOptions): string
  {
    match FirstCondition(top, Order(opts))
    case None => ""
    case Some(x) => if opts.addSourceRef then LocalizeReason(x.c.reason, x.source) else x.c.reason
  }

  function Decimal(n: int): string
  {
    if n < 0 then "-" + Print(-n) else Print(n)
  }

  function StepMessage(done: nat, total: int): string
  {
    Decimal(done) + " of " + Decimal(total) + " completed"
  }

  function TrueCount(groups: seq<Group>): nat
  {
    if groups == [] then 0
    else if groups[0].status == True && groups[0].severity == NoSeverity then |groups[0].items|
    else TrueCount(groups[1..])
  }

  function Message(top: seq<Item>, trueCount: nat, opts: MergeOptions): string
  {
    if opts.addStepCounter then StepMessage(trueCount, opts.stepCounter)
    else match FirstCondition(top, Order(opts))
         case None => ""
         case Some(x) => x.c.message
  }

  /** The merged condition, from the top group and the number of True conditions. */
  function MergeFrom(status: Status, severity: Severity, top: seq<Item>, trueCount: nat,
                     target: string, opts: MergeOptions): Condition
  {
    var reason, message := Reason(top, opts), Message(top, trueCount, opts);
    match status
    case True => Condition(target, True, NoSeverity, "", "", 0)
    case False => Condition(target, False, severity, reason, message, 0)
    case _ => Condition(target, Unknown, NoSeverity, reason, message, 0)
  }

  function Merge(conds: seq<Localized>, target: string, opts: MergeOptions): Option<Condition>
  {
    var g := ConditionGroups(conds);
    if g == [] then None
    else Some(MergeFrom(g[0].status, g[0].severity, g[0].items, TrueCount(g), target, opts))
  }

  // ---- what the groups are ----

  function Filter(items: seq<Item>, status: Status, severity: Severity): seq<Item>
  {
    if items == [] then []
    else
      var n := |items| - 1;
      Filter(items[..n], status, severity) + if InGroup(items[n], status, severity) then [items[n]] else []
  }

  ghost predicate GroupsOf(groups: seq<Group>, items: seq<Item>)
  {
    && (forall i, j | 0 <= i < j < |groups| ::
       groups[i].status != groups[j].status || groups[i].severity != groups[j].severity)
    && (forall i | 0 <= i < |groups| ::
          groups[i].items == Filter(items, groups[i].status, groups[i].severity) && groups[i].items != [])
    && (forall x | x in items :: exists i | 0 <= i < |groups| :: InGroup(x, groups[i].status, groups[i].severity))
  }

  lemma {:induction false} CollectGroups(items: seq<Item>)
    ensures GroupsOf(Collect(items), items)
  {
    if items != [] {
      var n := |items| - 1;
      var p, x, g := Collect(items[..n]), items[n], Collect(items);
      CollectGroups(items[..n]);
      var i := FindGroup(p, x);
      forall y | y in items
        ensures exists k | 0 <= k < |g| :: InGroup(y, g[k].status, g[k].severity)
      {
        if y == x {
          assert InGroup(y, g[i].status, g[i].severity);
        } else {
          assert y in items[..n];
          var k :| 0 <= k < |p| && InGroup(y, p[k].status, p[k].severity);
          assert InGroup(y, g[k].status, g[k].severity);
        }
      }
      if i == |p| {
        EmptyFilter(items[..n], x.c.status, x.c.severity);
      }
    }
  }

  lemma {:induction false} EmptyFilter(items: seq<Item>, status: Status, severity: Severity)
    requires forall x | x in items :: !InGroup(x, status, severity)
    ensures Filter(items, status, severity) == []
  {
    if items != [] {
      EmptyFilter(items[..|items| - 1], status, severity);
    }
  }

  lemma {:induction false} FilterCount(items: seq<Item>, status: Status, severity: Severity)
    ensures forall x :: multiset(Filter(items, status, severity))[x] ==
                        if InGroup(x, status, severity) then multiset(items)[x] else 0
  {
    if items != [] {
      var n := |items| - 1;
      assert items == items[..n] + [items[n]];
      FilterCount(items[..n], status, severity);
    }
  }

  lemma {:induction false} PresentCount(conds: seq<Localized>)
    ensures forall x: Item :: multiset(Present(conds))[x] == multiset(conds)[Localized(Some(x.c), x.source)]
  {
    if conds != [] {
      var n := |conds| - 1;
      assert conds == conds[..n] + [conds[n]];
      PresentCount(conds[..n]);
    }
  }

  lemma GroupLessOrders(dom: set<Group>)
    ensures StrictWeakOrderOn(dom, GroupLess)
  {}

  /** The conditions that decide: a key present in the list with no more urgent one. */
  ghost predicate IsTop(items: seq<Item>, status: Status, severity: Severity)
  {
    && (exists x | x in items :: InGroup(x, status, severity))
    && (forall y | y in items :: Priority(status, severity) <= Priority(y.c.status, y.c.severity))
  }

  lemma SortedGroups(items: seq<Item>)
    ensures var g := Sort(Collect(items), GroupLess);
            GroupsOf(g, items) && SortedBy(g, GroupLess)
  {
    hide Filter, InGroup, Collect, GroupLess, Sort;
    var c := Collect(items);
    var g := Sort(c, GroupLess);
    CollectGroups(items);
    var dom := set x | x in c;
    GroupLessOrders(dom);
    SortSorts(c, GroupLess, dom);
    PermutedKeysDistinct(c, g, (x: Group) => (x.status, x.severity));
    forall i | 0 <= i < |g|
      ensures g[i] in c
    {
      assert g[i] in multiset(c);
    }
    hide StrictWeakOrderOn, SortedBy;
    forall x | x in items
      ensures exists i | 0 <= i < |g| :: InGroup(x, g[i].status, g[i].severity)
    {
      var i :| 0 <= i < |c| && InGroup(x, c[i].status, c[i].severity);
      assert c[i] in multiset(g);
      var j :| 0 <= j < |g| && g[j] == c[i];
    }
    forall i, j | 0 <= i < j < |g|
      ensures g[i].status != g[j].status || g[i].severity != g[j].severity
    {
      assert (g[i].status, g[i].severity) != (g[j].status, g[j].severity);
    }
  }

  lemma TopIs(items: seq<Item>, g: seq<Group>)
    requires GroupsOf(g, items) && SortedBy(g, GroupLess)
    ensures g == [] <==> items == []
    ensures g != [] ==> IsTop(items, g[0].status, g[0].severity)
  {
    if g != [] {
      FilterCount(items, g[0].status, g[0].severity);
      var y := g[0].items[0];
      assert y in multiset(g[0].items);
      assert y in items && InGroup(y, g[0].status, g[0].severity);
    }
    forall y | y in items
      ensures g != [] && Priority(g[0].status, g[0].severity) <= Priority(y.c.status, y.c.severity)
    {
      var i :| 0 <= i < |g| && InGroup(y, g[i].status, g[i].severity);
      assert i > 0 ==> !GroupLess(g[i], g[0]);
    }
    if items != [] {
      assert items[0] in items;
    }
  }

  lemma {:induction false} TrueCountIs(groups: seq<Group>, items: seq<Item>, i: nat)
    requires GroupsOf(groups, items) && i <= |groups|
    requires forall k | 0 <= k < i :: groups[k].status != True || groups[k].severity != NoSeverity
    ensures TrueCount(groups[i..]) == |Filter(items, True, NoSeverity)|
    decreases |groups| - i
  {
    if i == |groups| {
      EmptyFilter(items, True, NoSeverity);
    } else if groups[i].status != True || groups[i].severity != NoSeverity {
      TrueCountIs(groups, items, i + 1);
      assert groups[i..][1..] == groups[i + 1..];
    }
  }

  lemma TrueCountSortTop(g: seq<Group>)
    ensures TrueCount(SortTop(g)) == TrueCount(g)
  {
    if g != [] {
      assert SortTop(g)[1..] == g[1..];
    }
  }

  /** Merge reports the most urgent status and severity present, from the conditions that have them. */
  lemma MergeIs(conds: seq<Localized>, target: string, opts: MergeOptions)
    ensures var items := Present(conds);
            if items == [] then Merge(conds, target, opts) == None
            else exists status, severity ::
                && IsTop(items, status, severity)
                && Merge(conds, target, opts) ==
                   Some(MergeFrom(status, severity, Sort(Filter(items, status, severity), ItemLess),
                                  |Filter(items, True, NoSeverity)|, target, opts))
  {
    var items := Present(conds);
    var g := Sort(Collect(items), GroupLess);
    SortedGroups(items);
    TopIs(items, g);
    if items != [] {
      TrueCountIs(g, items, 0);
      assert g[0..] == g;
      TrueCountSortTop(g);
      assert g[0].items == Filter(items, g[0].status, g[0].severity);
    }
  }

  ghost predicate Has(items: seq<Item>, status: Status, severity: Severity)
  {
    exists x :: x in items && x.c.status == status && x.c.severity == severity
  }

  ghost predicate HasStatus(items: seq<Item>, status: Status)
  {
    exists x :: x in items && x.c.status == status
  }

  /** The merged status and severity: a False error if there is one, else a False warning, else a False info, else True,
      else Unknown. */
  lemma MergeUrgency(conds: seq<Localized>, target: string, opts: MergeOptions)
    requires Present(conds) != []
    ensures var items := Present(conds);
            var r := Merge(conds, target, opts);
            && r.Some? && r.value.kind == target
            && (Has(items, False, Error) ==> r.value.status == False && r.value.severity == Error)
            && (!Has(items, False, Error) ==>
                  && (Has(items, False, Warning) ==> r.value.status == False && r.value.severity == Warning)
                  && (!Has(items, False, Warning) ==>
                        && (Has(items, False, Info) ==> r.value.status == False && r.value.severity == Info)
                        && (!Has(items, False, Info) ==>
                              && (HasStatus(items, True) ==> r.value.status == True)
                              && (!HasStatus(items, True) && HasStatus(items, Unknown) ==> r.value.status == Unknown))))
  {
    MergeIs(conds, target, opts);
    hide Merge, Present, Filter, Sort, Reason, Message;
    var items := Present(conds);
    var status, severity :|
      && IsTop(items, status, severity)
      && Merge(conds, target, opts) ==
         Some(MergeFrom(status, severity, Sort(Filter(items, status, severity), ItemLess),
                        |Filter(items, True, NoSeverity)|, target, opts));
  }

  // ---- the condition that supplies reason and message ----

  /** The earliest type of the order that occurs here. */
  ghost predicate FirstListed(t: string, items: seq<Item>, order: seq<string>)
  {
    exists k :: 0 <= k < |order| && order[k] == t && forall j, y | 0 <= j < k && y in items :: y.c.kind != order[j]
  }

  lemma {:induction false} FirstOfKindIs(items: seq<Item>, t: string)
    ensures var r := FirstOfKind(items, t);
            && (r.None? <==> forall y | y in items :: y.c.kind != t)
            && (r.Some? ==> exists i :: 0 <= i < |items| && items[i] == r.value && items[i].c.kind == t
                                        && forall j | 0 <= j < i :: items[j].c.kind != t)
  {
    if items != [] {
      FirstOfKindIs(items[1..], t);
      assert items == [items[0]] + items[1..];
      if items[0].c.kind == t {
        assert items[0] in items;
      } else if FirstOfKind(items[1..], t).Some? {
        var i :| 0 <= i < |items[1..]| && items[1..][i] == FirstOfKind(items[1..], t).value && items[1..][i].c.kind == t
                 && forall j | 0 <= j < i :: items[1..][j].c.kind != t;
        assert items[i + 1] == FirstOfKind(items, t).value;
        assert forall j | 0 < j < i + 1 :: items[j] == items[1..][j - 1];
      }
    }
  }

  lemma {:induction false} FirstByPriorityIs(items: seq<Item>, order: seq<string>)
    ensures var r := FirstByPriority(items, order);
            && (r.None? <==> forall y | y in items :: y.c.kind !in order)
            && (r.Some? ==> FirstOfKind(items, r.value.c.kind) == r && FirstListed(r.value.c.kind, items, order))
  {
    if order != [] {
      FirstOfKindIs(items, order[0]);
      FirstByPriorityIs(items, order[1..]);
      assert order == [order[0]] + order[1..];
      var r := FirstByPriority(items, order);
      if r.Some? {
        ListedLater(r.value.c.kind, items, order);
      }
      hide FirstListed, FirstOfKind;
    }
  }

  lemma ListedLater(t: string, items: seq<Item>, order: seq<string>)
    requires order != []
    ensures t == order[0] ==> FirstListed(t, items, order)
    ensures FirstListed(t, items, order[1..]) && (forall y | y in items :: y.c.kind != order[0]) ==>
              FirstListed(t, items, order)
  {
    if FirstListed(t, items, order[1..]) && forall y | y in items :: y.c.kind != order[0] {
      var k :| 0 <= k < |order[1..]| && order[1..][k] == t
               && forall j, y | 0 <= j < k && y in items :: y.c.kind != order[1..][j];
      assert order[k + 1] == t;
      assert forall j | 0 < j < k + 1 :: order[j] == order[1..][j - 1];
    }
  }

  /** Reason and message come from this condition of the top group: of the first type of the given order that occurs in
      the group, if any does, else of the type that sorts first; and, of that type, from the object whose name sorts
      first. */
  ghost predicate Supplies(x: Item, group: seq<Item>, order: seq<string>)
  {
    && x in group
    && (FirstListed(x.c.kind, group, order)
        || ((forall y | y in group :: y.c.kind !in order)
            && forall y | y in group && y.c.kind != x.c.kind :: !ConditionLess(y.c, x.c)))
    && (forall y | y in group && y.c.kind == x.c.kind :: !StringLess(y.source.name, x.source.name))
  }

  lemma FirstConditionSupplies(top: seq<Item>, order: seq<string>)
    requires top != [] && SortedBy(top, ItemLess)
    ensures FirstCondition(top, order).Some? && Supplies(FirstCondition(top, order).value, top, order)
  {
    FirstByPriorityIs(top, order);
    var x, r := FirstCondition(top, order).value, FirstByPriority(top, order);
    var i := 0;
    if r.Some? {
      FirstOfKindIs(top, r.value.c.kind);
      i :| 0 <= i < |top| && top[i] == r.value && forall j | 0 <= j < i :: top[j].c.kind != r.value.c.kind;
    }
    assert x == top[i];
    forall y | y in top
      ensures y.c.kind == x.c.kind ==> !StringLess(y.source.name, x.source.name)
      ensures r.None? && y.c.kind != x.c.kind ==> !ConditionLess(y.c, x.c)
    {
      var j :| 0 <= j < |top| && top[j] == y;
      StringLessIrreflexive(x.source.name);
      assert j > i ==> !ItemLess(top[j], top[i]);
    }
  }

  // ---- order independence ----

  /** False carries Error, Warning or Info; True and Unknown carry no severity. */
  predicate Tidy(c: Condition)
  {
    if c.status == False then c.severity in {Error, Warning, Info}
    else c.status in {True, Unknown} && c.severity == NoSeverity
  }

  ghost predicate TidyDistinct(items: seq<Item>)
  {
    && (forall x | x in items :: Tidy(x.c))
    && (forall i, j | 0 <= i < j < |items| ::
          items[i].c.kind != items[j].c.kind || items[i].source.name != items[j].source.name)
  }

  lemma TopUnique(a: seq<Item>, b: seq<Item>, s1: Status, v1: Severity, s2: Status, v2: Severity)
    requires multiset(a) == multiset(b) && TidyDistinct(a)
    requires IsTop(a, s1, v1) && IsTop(b, s2, v2)
    ensures s1 == s2 && v1 == v2
  {
    var x :| x in a && InGroup(x, s1, v1);
    var y :| y in b && InGroup(y, s2, v2);
    assert x in multiset(b) && y in multiset(a);
    assert Tidy(x.c) && Tidy(y.c);
  }

  lemma ItemLessOrders(dom: set<Item>)
    requires forall x, y | x in dom && y in dom && x != y :: x.c.kind != y.c.kind || x.source.name != y.source.name
    ensures StrictWeakOrderOn(dom, ItemLess) && TotalOn(dom, ItemLess)
  {
    forall x, y | x in dom && y in dom
      ensures ItemLess(x, y) ==> !ItemLess(y, x)
      ensures x != y ==> ItemLess(x, y) != ItemLess(y, x)
    {
      if x.c.kind != y.c.kind {
        ConditionLessSeparates(x.c, y.c);
      } else {
        NamesSeparate(x.source.name, y.source.name);
      }
    }
    forall x, y, z | x in dom && y in dom && z in dom && ItemLess(x, y) && !ItemLess(z, y)
      ensures ItemLess(x, z)
    {
      if x.c.kind == y.c.kind == z.c.kind {
        StringLessTotal(z.source.name, y.source.name);
        if StringLess(y.source.name, z.source.name) {
          StringLessTransitive(x.source.name, y.source.name, z.source.name);
        }
      } else {
        var d := {x.c, y.c, z.c};
        ConditionLessOrders(d);
        if y.c.kind != z.c.kind {
          ConditionLessSeparates(y.c, z.c);
        }
      }
    }
  }

  lemma NamesSeparate(a: string, b: string)
    ensures StringLess(a, b) ==> !StringLess(b, a)
    ensures a != b ==> StringLess(a, b) != StringLess(b, a)
  {
    StringLessTotal(a, b);
    StringLessIrreflexive(a);
    if StringLess(a, b) && StringLess(b, a) {
      StringLessTransitive(a, b, a);
    }
  }

  lemma TopSortUnique(a: seq<Item>, b: seq<Item>, s: Status, v: Severity)
    requires multiset(a) == multiset(b) && TidyDistinct(a)
    ensures Sort(Filter(a, s, v), ItemLess) == Sort(Filter(b, s, v), ItemLess)
    ensures |Filter(a, s, v)| == |Filter(b, s, v)|
  {
    var f, h := Filter(a, s, v), Filter(b, s, v);
    FiltersPermute(a, b, s, v);
    assert |multiset(f)| == |multiset(h)|;
    var dom := set x | x in a;
    ItemLessOrders(dom);
    hide ItemLess, Filter;
    SortSorts(f, ItemLess, dom);
    SortSorts(h, ItemLess, dom);
    var sf := Sort(f, ItemLess);
    forall x | x in sf
      ensures x in dom
    {
      assert x in multiset(f);
      assert x in f;
    }
    SortedUnique(sf, Sort(h, ItemLess), ItemLess, dom);
  }

  lemma FiltersPermute(a: seq<Item>, b: seq<Item>, s: Status, v: Severity)
    requires multiset(a) == multiset(b)
    ensures multiset(Filter(a, s, v)) == multiset(Filter(b, s, v))
    ensures forall x | x in Filter(a, s, v) || x in Filter(b, s, v) :: x in a
  {
    FilterCount(a, s, v);
    FilterCount(b, s, v);
    hide Filter;
    forall x | x in Filter(a, s, v) || x in Filter(b, s, v)
      ensures x in a
    {
      assert multiset(Filter(a, s, v))[x] > 0 || multiset(Filter(b, s, v))[x] > 0;
      assert x in multiset(a);
    }
  }

  /** The merged condition does not depend on the order the conditions are listed in. */
  lemma MergeOrderFree(a: seq<Localized>, b: seq<Localized>, target: string, opts: MergeOptions)
    requires multiset(a) == multiset(b) && TidyDistinct(Present(a))
    ensures Merge(a, target, opts) == Merge(b, target, opts)
  {
    hide Merge, MergeFrom, IsTop;
    var p, q := Present(a), Present(b);
    PresentCount(a);
    PresentCount(b);
    assert multiset(p) == multiset(q);
    assert |multiset(p)| == |multiset(q)|;
    MergeIs(a, target, opts);
    MergeIs(b, target, opts);
    if p != [] {
      var s1, v1 :| IsTop(p, s1, v1) && Merge(a, target, opts) ==
        Some(MergeFrom(s1, v1, Sort(Filter(p, s1, v1), ItemLess), |Filter(p, True, NoSeverity)|, target, opts));
      var s2, v2 :| IsTop(q, s2, v2) && Merge(b, target, opts) ==
        Some(MergeFrom(s2, v2, Sort(Filter(q, s2, v2), ItemLess), |Filter(q, True, NoSeverity)|, target, opts));
      TopUnique(p, q, s1, v1, s2, v2);
      TopSortUnique(p, q, s1, v1);
      TopSortUnique(p, q, True, NoSeverity);
    }
  }

  /** The conditions with this status and severity. */
  ghost predicate IsGroup(group: seq<Item>, items: seq<Item>, status: Status, severity: Severity)
  {
    forall y :: y in group <==> y in items && y.c.status == status && y.c.severity == severity
  }

  lemma TopSorted(items: seq<Item>, status: Status, severity: Severity)
    requires TidyDistinct(items)
    ensures SortedBy(Sort(Filter(items, status, severity), ItemLess), ItemLess)
  {
    var dom := set x | x in items;
    FiltersPermute(items, items, status, severity);
    ItemLessOrders(dom);
    hide ItemLess, Filter, Sort, StrictWeakOrderOn, TotalOn, SortedBy, TidyDistinct;
    SortSorts(Filter(items, status, severity), ItemLess, dom);
  }

  lemma TopMembers(items: seq<Item>, status: Status, severity: Severity)
    ensures IsGroup(Sort(Filter(items, status, severity), ItemLess), items, status, severity)
  {
    var f := Filter(items, status, severity);
    var top := Sort(f, ItemLess);
    FilterCount(items, status, severity);
    hide Filter, Sort, ItemLess;
    forall y: Item
      ensures y in top <==> y in items && y.c.status == status && y.c.severity == severity
    {
      assert y in top <==> y in multiset(top);
      assert y in items <==> y in multiset(items);
    }
  }

  /** What a condition that is not True takes from the first condition of the top group. */
  lemma TakenFrom(status: Status, severity: Severity, top: seq<Item>, done: nat, target: string, opts: MergeOptions)
    requires FirstCondition(top, Order(opts)).Some?
    ensures var r, x := MergeFrom(status, severity, top, done, target, opts), FirstCondition(top, Order(opts)).value;
            r.status != True ==>
              && r.reason == (if opts.addSourceRef then LocalizeReason(x.c.reason, x.source) else x.c.reason)
              && r.message == (if opts.addStepCounter then StepMessage(done, opts.stepCounter) else x.c.message)
  {
    hide LocalizeReason, StepMessage, FirstCondition;
  }

  /** A merged condition that is not True has the reason of its supplier among the conditions of the merged status and
      severity, with the source added if asked, and the supplier's message unless steps are counted; then the message
      counts the True conditions. */
  lemma MergeSupplier(conds: seq<Localized>, target: string, opts: MergeOptions)
    requires Present(conds) != [] && TidyDistinct(Present(conds))
    ensures var items, r := Present(conds), Merge(conds, target, opts);
            r.Some? && (r.value.status != True ==>
              exists group, x ::
                && IsGroup(group, items, r.value.status, r.value.severity) && Supplies(x, group, Order(opts))
                && r.value.reason == (if opts.addSourceRef then LocalizeReason(x.c.reason, x.source) else x.c.reason)
                && r.value.message == (if opts.addStepCounter
                                       then StepMessage(|Filter(items, True, NoSeverity)|, opts.stepCounter)
                                       else x.c.message))
  {
    MergeIs(conds, target, opts);
    hide Merge, Present, Sort, Supplies, Filter, IsGroup, Reason, Message, LocalizeReason, StepMessage, FirstCondition;
    var items, r := Present(conds), Merge(conds, target, opts);
    var s, v :|
      && IsTop(items, s, v)
      && r == Some(MergeFrom(s, v, Sort(Filter(items, s, v), ItemLess), |Filter(items, True, NoSeverity)|, target,
                             opts));
    var y :| y in items && InGroup(y, s, v);
    assert Tidy(y.c);
    var top := Sort(Filter(items, s, v), ItemLess);
    TopSorted(items, s, v);
    TopMembers(items, s, v);
    TopNotEmpty(top, items, y);
    hide IsTop, TidyDistinct, SortedBy, ItemLess;
    FirstConditionSupplies(top, Order(opts));
    TakenFrom(s, v, top, |Filter(items, True, NoSeverity)|, target, opts);
    if r.value.status != True {
      assert r.value.status == s && r.value.severity == v;
    }
  }

  lemma TopNotEmpty(top: seq<Item>, items: seq<Item>, y: Item)
    requires IsGroup(top, items, y.c.status, y.c.severity) && y in items
    ensures top != []
  {
    assert y in top;
  }

  // ---- summary and aggregate ----

  predicate Selected(c: Condition, types: Option<seq<string>>)
  {
    c.kind != READY && (types.None? || c.kind in types.value)
  }

  function InScope(s: seq<Condition>, types: Option<seq<string>>, from: Source): seq<Localized>
  {
    if s == [] then []
    else
      var n := |s| - 1;
      InScope(s[..n], types, from) + if Selected(s[n], types) then [Localized(Some(s[n]), from)] else []
  }

  /** The options summary passes on: whether to count steps, and up to what total. */
  function SummaryOptions(scope: seq<Localized>, opts: MergeOptions): MergeOptions
  {
    var count := opts.addStepCounter
                 && (opts.stepCounterIfOnly.None?
                     || forall x | x in scope :: x.condition.Some? ==>
                        x.condition.value.kind in opts.stepCounterIfOnly.value);
    var total := if !count then opts.stepCounter
                 else if opts.stepCounterIfOnly.Some? then |opts.stepCounterIfOnly.value|
                 else if opts.conditionTypes.Some? then |opts.conditionTypes.value|
                 else |scope|;
    opts.(addStepCounter := count, stepCounter := total)
  }

  method Summary(s: seq<Condition>, from: Source, options: MergeOptions) returns (r: Option<Condition>)
    ensures var scope := InScope(s, options.conditionTypes, from);
            r == Merge(scope, READY, SummaryOptions(scope, options))
  {
    var opts := options;
    var scope := [];
    for i := 0 to |s|
      invariant scope == InScope(s[..i], options.conditionTypes, from)
      invariant forall x | x in scope :: x.condition.Some?
    {
      assert s[..i + 1][..i] == s[..i];
      if s[i].kind == READY {
        continue;
      }
      if opts.conditionTypes.Some? && s[i].kind !in opts.conditionTypes.value {
        continue;
      }
      scope := scope + [Localized(Some(s[i]), from)];
    }
    assert s[..|s|] == s;
    if opts.stepCounterIfOnly.Some? {
      for i := 0 to |scope|
        invariant opts == options
        invariant forall k | 0 <= k < i :: scope[k].condition.value.kind in opts.stepCounterIfOnly.value
      {
        if scope[i].condition.value.kind !in opts.stepCounterIfOnly.value {
          opts := opts.(addStepCounter := false);
          assert scope[i] in scope;
          break;
        }
      }
    }
    if opts.addStepCounter {
      opts := opts.(stepCounter := |scope|);
      if opts.conditionTypes.Some? {
        opts := opts.(stepCounter := |opts.conditionTypes.value|);
      }
      if opts.stepCounterIfOnly.Some? {
        opts := opts.(stepCounter := |opts.stepCounterIfOnly.value|);
      }
    }
    r := Merge(scope, READY, opts);
  }

  lemma {:induction false} InScopeIs(s: seq<Condition>, types: Option<seq<string>>, from: Source)
    ensures var items := Present(InScope(s, types, from));
            && |items| == |InScope(s, types, from)|
            && (forall x | x in items ::
                  x.c in s && Selected(x.c, types) && Localized(Some(x.c), x.source) in InScope(s, types, from))
            && (DistinctKinds(s) ==> forall i, j | 0 <= i < j < |items| :: items[i].c.kind != items[j].c.kind)
  {
    if s != [] {
      var n := |s| - 1;
      InScopeIs(s[..n], types, from);
      var p := InScope(s[..n], types, from);
      if Selected(s[n], types) {
        assert (p + [Localized(Some(s[n]), from)])[..|p|] == p;
      } else {
        assert InScope(s, types, from) == p;
      }
      assert s == s[..n] + [s[n]];
      if DistinctKinds(s) {
        var q := Present(p);
        forall k | 0 <= k < |q|
          ensures q[k].c.kind != s[n].kind
        {
          assert q[k] in q;
          assert q[k].c in s[..n];
        }
      }
    }
  }

  /** The summary merges exactly the object's own conditions other than Ready, or those of the listed types. */
  lemma {:induction false} InScopeExactly(s: seq<Condition>, types: Option<seq<string>>, from: Source)
    ensures forall x :: x in Present(InScope(s, types, from)) <==>
              x.source == from && x.c in s && x.c.kind != READY && (types.Some? ==> x.c.kind in types.value)
  {
    if s != [] {
      var n := |s| - 1;
      InScopeExactly(s[..n], types, from);
      var p := InScope(s[..n], types, from);
      assert s == s[..n] + [s[n]];
      if Selected(s[n], types) {
        assert (p + [Localized(Some(s[n]), from)])[..|p|] == p;
      } else {
        assert InScope(s, types, from) == p;
      }
    }
  }

  /** Steps are counted exactly when asked for and no selected condition is outside the types the counter is limited to;
      y is the number of those types, else of the listed types, else of the selected conditions. */
  lemma StepsCountedExactly(s: seq<Condition>, from: Source, options: MergeOptions)
    ensures var scope := InScope(s, options.conditionTypes, from);
            var opts := SummaryOptions(scope, options);
            && (opts.addStepCounter <==>
                  && options.addStepCounter
                  && (options.stepCounterIfOnly.Some? ==>
                        forall c | c in s && c.kind != READY
                                   && (options.conditionTypes.Some? ==> c.kind in options.conditionTypes.value) ::
                          c.kind in options.stepCounterIfOnly.value))
            && (opts.addStepCounter && options.stepCounterIfOnly.Some? ==>
                  opts.stepCounter == |options.stepCounterIfOnly.value|)
            && (opts.addStepCounter && options.stepCounterIfOnly.None? && options.conditionTypes.Some? ==>
                  opts.stepCounter == |options.conditionTypes.value|)
            && (opts.addStepCounter && options.stepCounterIfOnly.None? && options.conditionTypes.None? ==>
                  opts.stepCounter == |Present(scope)|)
            && opts.conditionTypes == options.conditionTypes && opts.addSourceRef == options.addSourceRef
  {
    InScopeExactly(s, options.conditionTypes, from);
    InScopeIs(s, options.conditionTypes, from);
    var scope := InScope(s, options.conditionTypes, from);
    ScopePresent(scope);
    hide InScope, Present;
    forall c | c in s && c.kind != READY && (options.conditionTypes.Some? ==> c.kind in options.conditionTypes.value)
      ensures Localized(Some(c), from) in scope
    {
      assert Item(c, from) in Present(scope);
    }
    forall x | x in scope && x.condition.Some?
      ensures var c := x.condition.value;
              c in s && c.kind != READY && (options.conditionTypes.Some? ==> c.kind in options.conditionTypes.value)
    {
      assert Item(x.condition.value, x.source) in Present(scope);
    }
  }

  lemma {:induction false} ScopePresent(scope: seq<Localized>)
    ensures forall x: Item :: Localized(Some(x.c), x.source) in scope <==> x in Present(scope)
  {
    if scope != [] {
      var n := |scope| - 1;
      ScopePresent(scope[..n]);
      assert scope == scope[..n] + [scope[n]];
    }
  }

  /** Items of pairwise different types drawn from a list are no more than the list is long. */
  lemma {:induction false} DistinctDrawn(items: seq<Item>, types: seq<string>)
    requires forall i, j | 0 <= i < j < |items| :: items[i].c.kind != items[j].c.kind
    requires forall x | x in items :: x.c.kind in types
    ensures |items| <= |types|
  {
    if items != [] {
      var n := |items| - 1;
      assert items[n] in items;
      var k :| 0 <= k < |types| && types[k] == items[n].c.kind;
      var fewer := types[..k] + types[k + 1..];
      forall x | x in items[..n]
        ensures x.c.kind in fewer
      {
        var i :| 0 <= i < n && items[i] == x;
        assert items[i] in items;
        var l :| 0 <= l < |types| && types[l] == x.c.kind;
        assert l != k;
        if l < k {
          assert fewer[l] == x.c.kind;
        } else {
          assert fewer[l - 1] == x.c.kind;
        }
      }
      DistinctDrawn(items[..n], fewer);
    }
  }

  lemma {:induction false} FilterShorter(items: seq<Item>, s: Status, v: Severity)
    ensures |Filter(items, s, v)| <= |items|
  {
    if items != [] {
      FilterShorter(items[..|items| - 1], s, v);
    }
  }

  /** A summary over distinct types that shows a step counter reads "x of y completed" with x, the number of
      True conditions in scope, at most y. */
  lemma StepCounterBounded(s: seq<Condition>, from: Source, options: MergeOptions)
    requires DistinctKinds(s)
    ensures var scope := InScope(s, options.conditionTypes, from);
            var opts := SummaryOptions(scope, options);
            var r := Merge(scope, READY, opts);
            var done := |Filter(Present(scope), True, NoSeverity)|;
            opts.addStepCounter && r.Some? && r.value.status != True ==>
              done <= opts.stepCounter && r.value.message == StepMessage(done, opts.stepCounter)
  {
    var scope := InScope(s, options.conditionTypes, from);
    var items := Present(scope);
    var opts := SummaryOptions(scope, options);
    InScopeIs(s, options.conditionTypes, from);
    FilterShorter(items, True, NoSeverity);
    hide Filter, Merge, Present, InScope, StepMessage;
    if opts.addStepCounter {
      if options.stepCounterIfOnly.Some? {
        DistinctDrawn(items, options.stepCounterIfOnly.value);
      } else if options.conditionTypes.Some? {
        DistinctDrawn(items, options.conditionTypes.value);
      }
    }
    MergeIs(scope, READY, opts);
  }

  datatype Dependent = Dependent(source: Source, conditions: seq<Condition>)

  function ReadyIn(d: Dependent): Localized
  {
    Localized(Get(d.conditions, READY), d.source)
  }

  function ReadyOf(from: seq<Dependent>): (r: seq<Localized>)
    ensures |r| == |from|
    ensures forall i | 0 <= i < |r| :: r[i] == ReadyIn(from[i])
  {
    seq(|from|, i requires 0 <= i < |from| => ReadyIn(from[i]))
  }

  /** The Ready conditions of dependent objects, merged into `target`; y counts the objects. */
  function Aggregate(from: seq<Dependent>, target: string, options: MergeOptions): Option<Condition>
  {
    Merge(ReadyOf(from), target, options.(stepCounter := |from|))
  }

  /** Some object's Ready condition has this status, and this severity if one is given. */
  ghost predicate SomeReady(from: seq<Dependent>, status: Status, severity: Option<Severity>)
  {
    exists d :: d in from && Get(d.conditions, READY).Some? && Get(d.conditions, READY).value.status == status
                && (severity.Some? ==> Get(d.conditions, READY).value.severity == severity.value)
  }

  lemma ReadyPresent(from: seq<Dependent>)
    ensures forall x: Item :: x in Present(ReadyOf(from)) <==>
              exists d :: d in from && d.source == x.source && Get(d.conditions, READY) == Some(x.c)
  {
    ScopePresent(ReadyOf(from));
    hide Present, Get;
    forall x: Item
      ensures Localized(Some(x.c), x.source) in ReadyOf(from) <==>
                exists d :: d in from && d.source == x.source && Get(d.conditions, READY) == Some(x.c)
    {
      if d :| d in from && d.source == x.source && Get(d.conditions, READY) == Some(x.c) {
        var i :| 0 <= i < |from| && from[i] == d;
        assert ReadyOf(from)[i] == Localized(Some(x.c), x.source);
      }
      if Localized(Some(x.c), x.source) in ReadyOf(from) {
        var i :| 0 <= i < |from| && ReadyOf(from)[i] == Localized(Some(x.c), x.source);
        assert from[i] in from;
      }
    }
  }

  lemma ReadyHas(from: seq<Dependent>, status: Status, severity: Severity)
    ensures Has(Present(ReadyOf(from)), status, severity) <==> SomeReady(from, status, Some(severity))
    ensures HasStatus(Present(ReadyOf(from)), status) <==> SomeReady(from, status, None)
  {
    ReadyPresent(from);
    hide Present, ReadyOf, Get;
    forall d | d in from && Get(d.conditions, READY).Some?
      ensures Item(Get(d.conditions, READY).value, d.source) in Present(ReadyOf(from))
    {}
  }

  /** The aggregate condition of objects of which some has a Ready condition: a False error if one of these is, else a
      False warning, else a False info, else True, else Unknown; there is none if no object has one. */
  lemma AggregateUrgency(from: seq<Dependent>, target: string, options: MergeOptions)
    ensures var r := Aggregate(from, target, options);
            && (r.None? <==> forall d | d in from :: Get(d.conditions, READY).None?)
            && (r.Some? ==>
                  if SomeReady(from, False, Some(Error)) then r.value.status == False && r.value.severity == Error
                  else if SomeReady(from, False, Some(Warning)) then
                    r.value.status == False && r.value.severity == Warning
                  else if SomeReady(from, False, Some(Info)) then r.value.status == False && r.value.severity == Info
                  else if SomeReady(from, True, None) then r.value.status == True
                  else SomeReady(from, Unknown, None) ==> r.value.status == Unknown)
  {
    ReadyHas(from, False, Error);
    ReadyHas(from, False, Warning);
    ReadyHas(from, False, Info);
    ReadyHas(from, True, NoSeverity);
    ReadyHas(from, Unknown, NoSeverity);
    ReadyPresent(from);
    MergeIs(ReadyOf(from), target, options.(stepCounter := |from|));
    hide Merge, Present, ReadyOf, Get, Has, HasStatus, SomeReady, Sort, Filter, MergeFrom, IsTop;
    forall d | d in from && Get(d.conditions, READY).Some?
      ensures Item(Get(d.conditions, READY).value, d.source) in Present(ReadyOf(from))
    {}
    if Present(ReadyOf(from)) != [] {
      assert Present(ReadyOf(from))[0] in Present(ReadyOf(from));
      MergeUrgency(ReadyOf(from), target, options.(stepCounter := |from|));
    }
  }

  lemma ReadyOfSplit(b: seq<Dependent>, k: nat)
    requires k < |b|
    ensures multiset(ReadyOf(b)) == multiset(ReadyOf(b[..k] + b[k + 1..])) + multiset{ReadyIn(b[k])}
  {
    hide ReadyIn;
    var r, c := ReadyOf(b), ReadyOf(b[..k] + b[k + 1..]);
    assert c == r[..k] + r[k + 1..];
    assert r == r[..k] + [r[k]] + r[k + 1..];
  }

  lemma {:induction false} ReadyOfPermuted(a: seq<Dependent>, b: seq<Dependent>)
    requires multiset(a) == multiset(b)
    ensures multiset(ReadyOf(a)) == multiset(ReadyOf(b)) && |a| == |b|
  {
    hide ReadyOf;
    if a == [] {
      assert |multiset(b)| == 0;
    } else {
      var n := |a| - 1;
      assert a == a[..n] + [a[n]];
      assert a[n] in multiset(b);
      var k :| 0 <= k < |b| && b[k] == a[n];
      WithoutAt(b, k);
      WithoutAt(a, n);
      assert a[..n] + a[n + 1..] == a[..n];
      ReadyOfPermuted(a[..n], b[..k] + b[k + 1..]);
      ReadyOfSplit(a, n);
      ReadyOfSplit(b, k);
    }
  }

  lemma WithoutAt(b: seq<Dependent>, k: nat)
    requires k < |b|
    ensures multiset(b[..k] + b[k + 1..]) == multiset(b) - multiset{b[k]} && |b[..k] + b[k + 1..]| == |b| - 1
  {
    assert b == b[..k] + [b[k]] + b[k + 1..];
  }

  /** Aggregating over objects listed in any order gives the same condition. */
  lemma AggregateOrderFree(a: seq<Dependent>, b: seq<Dependent>, target: string, options: MergeOptions)
    requires multiset(a) == multiset(b) && TidyDistinct(Present(ReadyOf(a)))
    ensures Aggregate(a, target, options) == Aggregate(b, target, options)
  {
    ReadyOfPermuted(a, b);
    MergeOrderFree(ReadyOf(a), ReadyOf(b), target, options.(stepCounter := |a|));
  }
}
