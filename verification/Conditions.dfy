/** The typed condition list of an API object: lookup, Set and Delete. */
module Conditions {
  import opened Options
  import opened Orders

  const READY := "Ready"

  /** Seconds; 0 is the zero time. */
  type Time = int

  datatype Status = True | False | Unknown | OtherStatus(text: string)

  datatype Severity = Error | Warning | Info | NoSeverity | OtherSeverity(text: string)

  datatype Condition = Condition(
    kind: string, status: Status, severity: Severity, reason: string, message: string, transition: Time)

  /** Everything but the transition time. */
  predicate SameState(a: Condition, b: Condition)
  {
    a.kind == b.kind && a.status == b.status && a.reason == b.reason
    && a.severity == b.severity && a.message == b.message
  }

  /** A condition with its transition time blotted out. */
  function State(c: Condition): Condition
  {
    c.(transition := 0)
  }

  /** Ready first, then by type. */
  predicate ConditionLess(a: Condition, b: Condition)
  {
    (a.kind == READY || StringLess(a.kind, b.kind)) && b.kind != READY
  }

  predicate DistinctKinds(s: seq<Condition>)
  {
    forall i, j | 0 <= i < j < |s| :: s[i].kind != s[j].kind
  }

  /** Position of the first condition of type `t`, or the length. */
  function Find(s: seq<Condition>, t: string): (i: nat)
    ensures i <= |s|
    ensures forall k | 0 <= k < i :: s[k].kind != t
    ensures i < |s| ==> s[i].kind == t
  {
    if s == [] || s[0].kind == t then 0 else 1 + Find(s[1..], t)
  }

  function Get(s: seq<Condition>, t: string): (r: Option<Condition>)
    ensures r.Some? ==> r.value in s && r.value.kind == t
    ensures r.None? ==> forall c | c in s :: c.kind != t
  {
    var i := Find(s, t);
    if i < |s| then Some(s[i]) else None
  }

  function StateOf(s: seq<Condition>, t: string): Option<Condition>
  {
    match Get(s, t)
    case None => None
    case Some(c) => Some(State(c))
  }

  lemma GetIs(s: seq<Condition>, c: Condition)
    requires DistinctKinds(s) && c in s
    ensures Get(s, c.kind) == Some(c)
  {
    var k :| 0 <= k < |s| && s[k] == c;
    var i := Find(s, c.kind);
    assert i == k;
  }

  /** Lists without repeated types that hold the same conditions of type `t` look up alike. */
  lemma GetByMembership(a: seq<Condition>, b: seq<Condition>, t: string)
    requires DistinctKinds(a) && DistinctKinds(b)
    requires forall c: Condition | c.kind == t :: c in a <==> c in b
    ensures Get(a, t) == Get(b, t)
  {
    if Get(a, t).Some? {
      GetIs(b, Get(a, t).value);
    }
  }

  /** Lookups do not see the order of a list without repeated types. */
  lemma GetPermuted(a: seq<Condition>, b: seq<Condition>)
    requires multiset(a) == multiset(b) && DistinctKinds(a)
    ensures DistinctKinds(b)
    ensures forall t :: Get(b, t) == Get(a, t)
  {
    PermutedKeysDistinct(a, b, (c: Condition) => c.kind);
    forall c
      ensures c in a <==> c in b
    {
      assert c in multiset(a) <==> c in multiset(b);
    }
    forall t
      ensures Get(b, t) == Get(a, t)
    {
      GetByMembership(a, b, t);
    }
  }

  lemma ConditionLessOrders(dom: set<Condition>)
    ensures StrictWeakOrderOn(dom, ConditionLess)
  {
    forall x, y | x in dom && y in dom && ConditionLess(x, y)
      ensures !ConditionLess(y, x)
    {
      if StringLess(x.kind, y.kind) && StringLess(y.kind, x.kind) {
        StringLessTransitive(x.kind, y.kind, x.kind);
      }
      StringLessIrreflexive(x.kind);
    }
    forall x, y, z | x in dom && y in dom && z in dom && ConditionLess(x, y) && !ConditionLess(z, y)
      ensures ConditionLess(x, z)
    {
      StringLessTotal(z.kind, y.kind);
      if StringLess(x.kind, y.kind) && StringLess(y.kind, z.kind) {
        StringLessTransitive(x.kind, y.kind, z.kind);
      }
    }
  }

  lemma ConditionLessSeparates(a: Condition, b: Condition)
    requires a.kind != b.kind
    ensures ConditionLess(a, b) != ConditionLess(b, a)
  {
    StringLessTotal(a.kind, b.kind);
    if StringLess(a.kind, b.kind) && StringLess(b.kind, a.kind) {
      StringLessTransitive(a.kind, b.kind, a.kind);
      StringLessIrreflexive(a.kind);
    }
  }

  function SortConditions(s: seq<Condition>): (r: seq<Condition>)
    ensures multiset(r) == multiset(s)
    ensures SortedBy(r, ConditionLess)
  {
    var dom := set c | c in s;
    ConditionLessOrders(dom);
    SortSorts(s, ConditionLess, dom);
    Sort(s, ConditionLess)
  }

  /** Whatever algorithm sorts a list without repeated types, the outcome is the same. */
  lemma SortDetermined(s: seq<Condition>, r: seq<Condition>)
    requires DistinctKinds(s)
    requires multiset(r) == multiset(s) && SortedBy(r, ConditionLess)
    ensures r == SortConditions(s)
  {
    var dom := set c | c in s;
    forall x, y | x in dom && y in dom && x != y
      ensures ConditionLess(x, y) != ConditionLess(y, x)
    {
      if x.kind == y.kind {
        GetIs(s, x);
        GetIs(s, y);
      }
      ConditionLessSeparates(x, y);
    }
    forall y | y in r
      ensures y in dom
    {
      assert y in multiset(s);
    }
    SortedUnique(r, SortConditions(s), ConditionLess, dom);
  }

  /** The list after Set, and the caller's condition with the time Set writes into it. */
  function SetCondition(s: seq<Condition>, c: Condition, now: Time): (seq<Condition>, Condition)
  {
    var i := Find(s, c.kind);
    if i == |s| then
      var d := if c.transition == 0 then c.(transition := now) else c;
      (SortConditions(s + [d]), d)
    else if SameState(s[i], c) then
      (SortConditions(s), c.(transition := s[i].transition))
    else
      var d := c.(transition := now);
      (SortConditions(s[i := d]), d)
  }

  /** The list Set sorts. */
  function Replaced(s: seq<Condition>, d: Condition): seq<Condition>
  {
    var i := Find(s, d.kind);
    if i == |s| then s + [d] else s[i := d]
  }

  lemma ReplacedMeaning(s: seq<Condition>, d: Condition)
    requires DistinctKinds(s)
    ensures var u := Replaced(s, d);
            DistinctKinds(u) && Get(u, d.kind) == Some(d) && forall t | t != d.kind :: Get(u, t) == Get(s, t)
  {
    var u := Replaced(s, d);
    var i := Find(s, d.kind);
    assert u[i] == d;
    GetIs(u, d);
    forall c: Condition | c.kind != d.kind
      ensures c in u <==> c in s
    {
      if c in s {
        var k :| 0 <= k < |s| && s[k] == c;
        assert u[k] == c;
      }
      if c in u {
        var k :| 0 <= k < |u| && u[k] == c;
        assert s[k] == c;
      }
    }
    forall t | t != d.kind
      ensures Get(u, t) == Get(s, t)
    {
      GetByMembership(u, s, t);
    }
  }

  /** Set stores the given state under its type and leaves every other type alone; an unchanged state keeps its
      transition time, a changed one gets the current time, a new one the current time unless it came with one; the
      caller ends up holding exactly what is stored. */
  lemma SetMeaning(s: seq<Condition>, c: Condition, now: Time)
    requires DistinctKinds(s)
    ensures var (r, d) := SetCondition(s, c, now);
            && DistinctKinds(r) && SortedBy(r, ConditionLess)
            && Get(r, c.kind) == Some(d) && SameState(d, c) && State(d) == State(c)
            && (forall t | t != c.kind :: Get(r, t) == Get(s, t))
            && (Get(s, c.kind).Some? && SameState(Get(s, c.kind).value, c) ==> d == Get(s, c.kind).value)
            && (Get(s, c.kind).Some? && !SameState(Get(s, c.kind).value, c) ==> d.transition == now)
            && (Get(s, c.kind).None? ==> d.transition == if c.transition == 0 then now else c.transition)
  {
    var (r, d) := SetCondition(s, c, now);
    var u := Replaced(s, d);
    SetSorts(s, c, now);
    ReplacedMeaning(s, d);
    hide SetCondition, SortConditions, Replaced, ConditionLess, Get;
    GetPermuted(u, r);
  }

  /** Set sorts the list with its condition put in; an unchanged state is put in as it was. */
  lemma SetSorts(s: seq<Condition>, c: Condition, now: Time)
    ensures var (r, d) := SetCondition(s, c, now);
            && r == SortConditions(Replaced(s, d)) && d.kind == c.kind && SameState(d, c)
            && (Get(s, c.kind).Some? && SameState(Get(s, c.kind).value, c) ==> d == Get(s, c.kind).value)
            && (Get(s, c.kind).Some? && !SameState(Get(s, c.kind).value, c) ==> d.transition == now)
            && (Get(s, c.kind).None? ==> d.transition == if c.transition == 0 then now else c.transition)
  {
    hide SortConditions;
    var (r, d) := SetCondition(s, c, now);
    var i := Find(s, c.kind);
    if i < |s| && SameState(s[i], c) {
      assert d == s[i] && Replaced(s, d) == s;
    }
  }

  predicate Precedes(a: string, b: string)
  {
    b != READY && (a == READY || StringLess(a, b))
  }

  /** A sorted list without repeated types is Ready first, then in string order of the types. */
  lemma OrderedByType(s: seq<Condition>)
    requires SortedBy(s, ConditionLess) && DistinctKinds(s)
    ensures forall i, j | 0 <= i < j < |s| :: Precedes(s[i].kind, s[j].kind)
  {
    forall i, j | 0 <= i < j < |s|
      ensures Precedes(s[i].kind, s[j].kind)
    {
      assert !ConditionLess(s[j], s[i]);
      StringLessTotal(s[i].kind, s[j].kind);
    }
  }

  /** In a sorted list a Ready condition comes first. */
  lemma ReadyFirst(s: seq<Condition>)
    requires SortedBy(s, ConditionLess)
    ensures Get(s, READY).Some? ==> s[0].kind == READY
  {
    var i := Find(s, READY);
    assert 0 < i < |s| ==> !ConditionLess(s[i], s[0]);
  }

  function DeleteCondition(s: seq<Condition>, t: string): seq<Condition>
  {
    if s == [] then []
    else if s[|s| - 1].kind == t then DeleteCondition(s[..|s| - 1], t)
    else DeleteCondition(s[..|s| - 1], t) + [s[|s| - 1]]
  }

  lemma {:induction false} DeleteKeeps(s: seq<Condition>, t: string)
    ensures forall c :: c in DeleteCondition(s, t) <==> c in s && c.kind != t
    ensures DistinctKinds(s) ==> DistinctKinds(DeleteCondition(s, t))
  {
    if s != [] {
      var n := |s| - 1;
      DeleteKeeps(s[..n], t);
      assert s == s[..n] + [s[n]];
      var d := DeleteCondition(s[..n], t);
      if DistinctKinds(s) {
        forall k | 0 <= k < |d|
          ensures d[k].kind != s[n].kind
        {
          assert d[k] in s[..n];
        }
      }
    }
  }

  /** Delete removes one type and leaves every other alone. */
  lemma DeleteMeaning(s: seq<Condition>, t: string)
    requires DistinctKinds(s)
    ensures var r := DeleteCondition(s, t);
            DistinctKinds(r) && Get(r, t) == None && forall u | u != t :: Get(r, u) == Get(s, u)
  {
    DeleteKeeps(s, t);
    var r := DeleteCondition(s, t);
    forall u | u != t
      ensures Get(r, u) == Get(s, u)
    {
      GetByMembership(r, s, u);
    }
  }

  /** An API object seen through its condition list. */
  class Conditioned {
    var conditions: seq<Condition>

    constructor (initial: seq<Condition>)
      ensures conditions == initial
    {
      conditions := initial;
    }

    /** Returns the caller's condition as Set leaves it. */
    method Set(condition: Condition, now: Time) returns (c: Condition)
      modifies this
      ensures (conditions, c) == SetCondition(old(conditions), condition, now)
    {
      hide SortConditions;
      c := condition;
      var list := conditions;
      var exists_ := false;
      var i := 0;
      while i < |list| && !exists_
        invariant 0 <= i <= |list|
        invariant !exists_ ==> list == conditions && c == condition && forall k | 0 <= k < i :: list[k].kind != c.kind
        invariant exists_ ==> i > 0 && Find(conditions, condition.kind) == i - 1 && |list| == |conditions|
        invariant exists_ && SameState(conditions[i - 1], condition) ==>
                    list == conditions && c == condition.(transition := conditions[i - 1].transition)
        invariant exists_ && !SameState(conditions[i - 1], condition) ==>
                    c == condition.(transition := now) && list == conditions[i - 1 := c]
      {
        if list[i].kind == c.kind {
          exists_ := true;
          if !SameState(list[i], c) {
            c := c.(transition := now);
            list := list[i := c];
          } else {
            c := c.(transition := list[i].transition);
          }
        }
        i := i + 1;
      }
      if !exists_ {
        if c.transition == 0 {
          c := c.(transition := now);
        }
        list := list + [c];
      }
      conditions := SortConditions(list);
    }

    method Delete(t: string)
      modifies this
      ensures conditions == DeleteCondition(old(conditions), t)
    {
      var kept := [];
      for i := 0 to |conditions|
        invariant conditions == old(conditions)
        invariant kept == DeleteCondition(conditions[..i], t)
      {
        assert conditions[..i + 1][..i] == conditions[..i];
        if conditions[i].kind != t {
          kept := kept + [conditions[i]];
        }
      }
      assert conditions[..|conditions|] == conditions;
      conditions := kept;
    }
  }

  datatype Edit = SetEdit(c: Condition, now: Time) | DeleteEdit(kind: string)

  function Apply1(s: seq<Condition>, e: Edit): seq<Condition>
  {
    match e
    case SetEdit(c, now) => SetCondition(s, c, now).0
    case DeleteEdit(t) => DeleteCondition(s, t)
  }

  function Run(s: seq<Condition>, edits: seq<Edit>): seq<Condition>
  {
    if edits == [] then s else Apply1(Run(s, edits[..|edits| - 1]), edits[|edits| - 1])
  }

  /** What an edit asks type `t` to be, given what it was. */
  function Asked(e: Edit, t: string, was: Option<Condition>): Option<Condition>
  {
    match e
    case SetEdit(c, _) => if c.kind == t then Some(State(c)) else was
    case DeleteEdit(k) => if k == t then None else was
  }

  /** What the last edit naming `t` asked for, or `initial`. */
  function LastEdit(edits: seq<Edit>, t: string, initial: Option<Condition>): Option<Condition>
  {
    if edits == [] then initial
    else Asked(edits[|edits| - 1], t, LastEdit(edits[..|edits| - 1], t, initial))
  }

  lemma StepMeaning(s: seq<Condition>, e: Edit)
    requires DistinctKinds(s)
    ensures var r := Apply1(s, e);
            && DistinctKinds(r)
            && (e.SetEdit? ==> SortedBy(r, ConditionLess))
            && forall t :: StateOf(r, t) == Asked(e, t, StateOf(s, t))
  {
    match e {
      case SetEdit(c, now) =>
        SetMeaning(s, c, now);
        assert SortedBy(SetCondition(s, c, now).0, ConditionLess);
      case DeleteEdit(t) =>
        DeleteMeaning(s, t);
    }
  }

  /** Along every run of Set and Delete, types stay distinct and the list behaves as a map from type to
      the state the last edit of that type asked for; after a Set it is sorted with Ready first. */
  lemma {:induction false} RunMeaning(s: seq<Condition>, edits: seq<Edit>)
    requires DistinctKinds(s)
    ensures DistinctKinds(Run(s, edits))
    ensures forall t :: StateOf(Run(s, edits), t) == LastEdit(edits, t, StateOf(s, t))
    ensures edits != [] && edits[|edits| - 1].SetEdit? ==>
              var r := Run(s, edits); SortedBy(r, ConditionLess) && (Get(r, READY).Some? ==> r[0].kind == READY)
  {
    if edits != [] {
      var n := |edits| - 1;
      RunMeaning(s, edits[..n]);
      var p := Run(s, edits[..n]);
      StepMeaning(p, edits[n]);
      forall t
        ensures StateOf(Run(s, edits), t) == LastEdit(edits, t, StateOf(s, t))
      {
        assert StateOf(p, t) == LastEdit(edits[..n], t, StateOf(s, t));
      }
      if edits[n].SetEdit? {
        ReadyFirst(Run(s, edits));
      }
    }
  }
}
